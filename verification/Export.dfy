/** Export and import (`src/export.rs`) as sequences of lines: a header, for each
    collection its line and its documents', and an end line with the counts. */
module Export {
  import opened Values
  import opened Codec
  import opened Json

  const HEADER_KEY: Name := [36, 116, 114, 117, 110, 107, 100, 98, 95, 101, 120, 112, 111, 114, 116] // $trunkdb_export
  const COLLECTION_KEY: Name := [36, 99, 111, 108, 108, 101, 99, 116, 105, 111, 110] // $collection
  const INDEXES_KEY: Name := [36, 105, 110, 100, 101, 120, 101, 115] // $indexes
  const FIELD_KEY: Name := [102, 105, 101, 108, 100] // field
  const FIELDS_KEY: Name := [102, 105, 101, 108, 100, 115] // fields
  const UNIQUE_KEY: Name := [117, 110, 105, 113, 117, 101] // unique
  const SPARSE_KEY: Name := [115, 112, 97, 114, 115, 101] // sparse
  const END_KEY: Name := [36, 101, 110, 100] // $end
  const COLLECTIONS_KEY: Name := [99, 111, 108, 108, 101, 99, 116, 105, 111, 110, 115] // collections
  const DOCUMENTS_KEY: Name := [100, 111, 99, 117, 109, 101, 110, 116, 115] // documents

  lemma KeysDiffer()
    ensures |HEADER_KEY| == 15 && |COLLECTION_KEY| == 11 && |INDEXES_KEY| == 8 && |FIELD_KEY| == 5
    ensures |FIELDS_KEY| == 6 && FIELDS_KEY[0] == 102 && |UNIQUE_KEY| == 6 && UNIQUE_KEY[0] == 117
    ensures |SPARSE_KEY| == 6 && SPARSE_KEY[0] == 115 && |END_KEY| == 4 && |COLLECTIONS_KEY| == 11
    ensures |DOCUMENTS_KEY| == 9 && |ID_FIELD| == 3 && COLLECTIONS_KEY[0] == 99 && COLLECTION_KEY[0] == 36
  {
  }

  /** The names lines are told apart by, as text. */
  lemma KeysAre()
    ensures HEADER_KEY == AsBytes("$trunkdb_export") && COLLECTION_KEY == AsBytes("$collection")
    ensures INDEXES_KEY == AsBytes("$indexes") && FIELD_KEY == AsBytes("field") && FIELDS_KEY == AsBytes("fields")
    ensures UNIQUE_KEY == AsBytes("unique") && SPARSE_KEY == AsBytes("sparse") && END_KEY == AsBytes("$end")
    ensures COLLECTIONS_KEY == AsBytes("collections") && DOCUMENTS_KEY == AsBytes("documents")
  {
  }

  const VERSION: nat := 3
  const TWO64: nat := 0x1_0000_0000_0000_0000

  datatype Index = Index(fields: seq<Name>, unique: bool, sparse: bool)

  datatype Collection = Collection(name: Name, indexes: seq<Index>, docs: seq<(DocId, Document)>)

  function Names(names: seq<Name>): (json: Json) {
    JArray(seq(|names|, i requires 0 <= i < |names| => JString(names[i])))
  }

  function Flag(key: Name, set_: bool): (fields: seq<Field>) {
    if set_ then [(key, JBool(true))] else []
  }

  function IndexLine(index: Index): (json: Json) {
    if !index.unique && !index.sparse then
      if |index.fields| == 1 then JString(index.fields[0]) else Names(index.fields)
    else
      var field := if |index.fields| == 1 then (FIELD_KEY, JString(index.fields[0])) else (FIELDS_KEY, Names(index.fields));
      JObject([field] + Flag(UNIQUE_KEY, index.unique) + Flag(SPARSE_KEY, index.sparse))
  }

  function ReadNames(json: Json): (names: Option<seq<Name>>) {
    if json.JArray? && (forall i :: 0 <= i < |json.items| ==> json.items[i].JString?)
    then Some(seq(|json.items|, i requires 0 <= i < |json.items| => json.items[i].text)) else None
  }

  function ReadFlag(fields: seq<Field>, key: Name): (set_: Option<bool>) {
    match Get(fields, key)
    case None => Some(false)
    case Some(value) => if value.JBool? then Some(value.value) else None
  }

  predicate KnownKeys(fields: seq<Field>, known: set<Name>) {
    forall i :: 0 <= i < |fields| ==> fields[i].0 in known
  }

  /** `parse_index`. */
  function ParseIndex(json: Json): (index: Option<Index>) {
    match json
    case JString(name) => Some(Index([name], false, false))
    case JArray(_) =>
      var names := ReadNames(json);
      if names.None? then None else Some(Index(names.value, false, false))
    case JObject(fields) =>
      var one, several := Get(fields, FIELD_KEY), Get(fields, FIELDS_KEY);
      var names :=
        if one.Some? && one.value.JString? && several.None? then Some([one.value.text])
        else if one.None? && several.Some? then ReadNames(several.value)
        else None;
      var unique, sparse := ReadFlag(fields, UNIQUE_KEY), ReadFlag(fields, SPARSE_KEY);
      if names.None? || unique.None? || sparse.None?
         || !KnownKeys(fields, {FIELD_KEY, FIELDS_KEY, UNIQUE_KEY, SPARSE_KEY}) then None
      else Some(Index(names.value, unique.value, sparse.value))
    case _ => None
  }

  /** A key nobody knows is refused, wherever it stands. */
  lemma UnknownIsRefused(fields: seq<Field>, i: nat)
    requires i < |fields|
    ensures fields[i].0 !in {FIELD_KEY, FIELDS_KEY, UNIQUE_KEY, SPARSE_KEY} ==> ParseIndex(JObject(fields)) == None
    ensures fields[i].0 !in {COLLECTION_KEY, INDEXES_KEY} ==> !ParseHeader(JObject(fields)).Is?
    ensures fields[i].0 != END_KEY ==> EndCounts(JObject(fields)) == Not
    ensures fields[i].0 != HEADER_KEY ==> CheckHeader(JObject(fields)) == None
  {
    hide ParseIndexes;
    if |fields| == 1 {
      GetOne(fields, END_KEY);
      GetOne(fields, HEADER_KEY);
    }
  }

  lemma NamesBack(names: seq<Name>)
    ensures ReadNames(Names(names)) == Some(names)
  {
    assert ReadNames(Names(names)).value == names;
  }

  /** An index is read as it was written. */
  lemma IndexBack(index: Index)
    ensures ParseIndex(IndexLine(index)) == Some(index)
  {
    KeysDiffer();
    NamesBack(index.fields);
    if |index.fields| == 1 { assert [index.fields[0]] == index.fields; }
    if index.unique || index.sparse {
      hide ReadNames, Names;
      var fields := IndexLine(index).fields;
      assert fields[1..] == Flag(UNIQUE_KEY, index.unique) + Flag(SPARSE_KEY, index.sparse);
      GetTail(fields, index);
    }
  }

  lemma GetTail(fields: seq<Field>, index: Index)
    requires fields != [] && (fields[0].0 == FIELD_KEY || fields[0].0 == FIELDS_KEY)
    requires fields[1..] == Flag(UNIQUE_KEY, index.unique) + Flag(SPARSE_KEY, index.sparse)
    ensures ReadFlag(fields, UNIQUE_KEY) == Some(index.unique) && ReadFlag(fields, SPARSE_KEY) == Some(index.sparse)
    ensures fields[0].0 == FIELD_KEY ==> Get(fields, FIELDS_KEY).None?
    ensures fields[0].0 == FIELDS_KEY ==> Get(fields, FIELD_KEY).None?
    ensures KnownKeys(fields, {FIELD_KEY, FIELDS_KEY, UNIQUE_KEY, SPARSE_KEY})
  {
    KeysDiffer();
    var sparse := Flag(SPARSE_KEY, index.sparse);
    var tail := Flag(UNIQUE_KEY, index.unique) + sparse;
    assert fields == [fields[0]] + tail && sparse + [] == sparse;
    GetTailOf(index, UNIQUE_KEY);
    GetTailOf(index, SPARSE_KEY);
    GetTailOf(index, FIELD_KEY);
    GetTailOf(index, FIELDS_KEY);
  }

  lemma GetTailOf(index: Index, name: Name)
    ensures Get(Flag(UNIQUE_KEY, index.unique) + Flag(SPARSE_KEY, index.sparse), name)
         == if (index.unique && name == UNIQUE_KEY) || (index.sparse && name == SPARSE_KEY) then Some(JBool(true)) else None
  {
    KeysDiffer();
    var sparse := Flag(SPARSE_KEY, index.sparse);
    GetFlag(UNIQUE_KEY, index.unique, sparse, name);
    GetFlag(SPARSE_KEY, index.sparse, [], name);
    assert sparse + [] == sparse;
  }

  lemma GetFlag(key: Name, set_: bool, rest: seq<Field>, name: Name)
    ensures Get(Flag(key, set_) + rest, name) == if set_ && key == name then Some(JBool(true)) else Get(rest, name)
  {
    if set_ {
      assert (Flag(key, true) + rest)[1..] == rest;
    } else {
      assert Flag(key, false) + rest == rest;
    }
  }

  // ------------------------------------------------------------------------- lines

  function FromCount(n: nat): (json: Json) {
    if n < TWO63 then JInt(n) else JBig(n)
  }

  function AsU64(json: Json): (n: Option<nat>) {
    if json.JInt? && json.number >= 0 then Some(json.number)
    else if json.JBig? && json.big < TWO64 then Some(json.big)
    else None
  }

  function HeaderLine(version: nat): (json: Json)
    requires version <= VERSION
  {
    JObject([(HEADER_KEY, JInt(version))])
  }

  function IndexLines(indexes: seq<Index>): (json: seq<Json>) {
    seq(|indexes|, i requires 0 <= i < |indexes| => IndexLine(indexes[i]))
  }

  function CollectionLine(c: Collection): (json: Json) {
    JObject([(COLLECTION_KEY, JString(c.name)), (INDEXES_KEY, JArray(IndexLines(c.indexes)))])
  }

  function EndLine(collections: nat, documents: nat): (json: Json) {
    JObject([(END_KEY, JObject([(COLLECTIONS_KEY, FromCount(collections)), (DOCUMENTS_KEY, FromCount(documents))]))])
  }

  function DocumentLines(ids: Ids, docs: seq<(DocId, Document)>): (lines: seq<Json>) {
    if docs == [] then []
    else [JObject(DocumentLine(ids, docs[0].0, docs[0].1))] + DocumentLines(ids, docs[1..])
  }

  function CollectionLines(ids: Ids, db: seq<Collection>): (lines: seq<Json>) {
    if db == [] then []
    else [CollectionLine(db[0])] + DocumentLines(ids, db[0].docs) + CollectionLines(ids, db[1..])
  }

  function DocumentCount(db: seq<Collection>): (n: nat) {
    if db == [] then 0 else |db[0].docs| + DocumentCount(db[1..])
  }

  /** `export_of`: the lines of a whole export. */
  function ExportLines(ids: Ids, db: seq<Collection>): (lines: seq<Json>) {
    [HeaderLine(VERSION)] + CollectionLines(ids, db) + [EndLine(|db|, DocumentCount(db))]
  }

  // ---------------------------------------------------------------- telling lines apart

  /** `check_header`. */
  function CheckHeader(json: Json): (version: Option<nat>) {
    if !json.JObject? || |json.fields| != 1 then None
    else
      var given := Get(json.fields, HEADER_KEY);
      var version := if given.None? then None else AsU64(given.value);
      if version.Some? && 1 <= version.value <= VERSION then version else None
  }

  /** A line that may be something else, or malformed. */
  datatype Maybe<T> = Not | Malformed | Is(value: T)

  datatype Counts = Counts(collections: nat, documents: nat)

  /** `end_counts`: `{"$end": ...}` and nothing else. */
  function EndCounts(json: Json): (counts: Maybe<Counts>) {
    if !json.JObject? || |json.fields| != 1 || Get(json.fields, END_KEY).None? then Not
    else
      var end := Get(json.fields, END_KEY).value;
      if !end.JObject? || |end.fields| != 2 then Malformed
      else
        var c, d := Get(end.fields, COLLECTIONS_KEY), Get(end.fields, DOCUMENTS_KEY);
        if c.None? || d.None? || AsU64(c.value).None? || AsU64(d.value).None? then Malformed
        else Is(Counts(AsU64(c.value).value, AsU64(d.value).value))
  }

  datatype Header = Header(name: Name, indexes: seq<Index>)

  function ParseIndexes(items: seq<Json>): (indexes: Option<seq<Index>>) {
    if items == [] then Some([])
    else
      var first, rest := ParseIndex(items[0]), ParseIndexes(items[1..]);
      if first.None? || rest.None? then None else Some([first.value] + rest.value)
  }

  /** `CollectionHeader::parse`: a line with `$collection` and without `_id`. */
  function ParseHeader(json: Json): (header: Maybe<Header>) {
    if !json.JObject? || Get(json.fields, COLLECTION_KEY).None? || Get(json.fields, ID_FIELD).Some? then Not
    else
      var name, given := Get(json.fields, COLLECTION_KEY).value, Get(json.fields, INDEXES_KEY);
      var indexes :=
        if given.None? then Some([]) else if given.value.JArray? then ParseIndexes(given.value.items) else None;
      if !name.JString? || indexes.None? || !KnownKeys(json.fields, {COLLECTION_KEY, INDEXES_KEY}) then Malformed
      else Is(Header(name.text, indexes.value))
  }

  /** A document's line is never taken for another's. */
  lemma DocumentLineIsNoOther(ids: Ids, id: DocId, doc: Document)
    requires IsStored(doc, id)
    ensures var json := JObject(DocumentLine(ids, id, doc));
            EndCounts(json) == Not && ParseHeader(json) == Not && CheckHeader(json) == None
  {
    KeysDiffer();
    LineHasId(ids, id, doc);
    hide DocumentLine;
    var line := DocumentLine(ids, id, doc);
    if |line| == 1 {
      GetOne(line, END_KEY);
      GetOne(line, HEADER_KEY);
    }
  }

  lemma GetOne(fields: seq<Field>, name: Name)
    requires |fields| == 1
    ensures Get(fields, name) == if fields[0].0 == name then Some(fields[0].1) else None
  {
    assert fields[1..] == [];
  }

  lemma TwoOf(a: Name, x: Json, b: Name, y: Json)
    requires a != b
    ensures Get([(a, x), (b, y)], a) == Some(x) && Get([(a, x), (b, y)], b) == Some(y)
    ensures forall n :: n != a && n != b ==> Get([(a, x), (b, y)], n) == None
  {
    assert [(a, x), (b, y)][1..] == [(b, y)];
    forall n ensures Get([(b, y)], n) == if n == b then Some(y) else None {
      GetOne([(b, y)], n);
    }
  }

  lemma {:induction false} IndexesBack(indexes: seq<Index>)
    ensures ParseIndexes(IndexLines(indexes)) == Some(indexes)
  {
    hide ParseIndex, IndexLine;
    if indexes != [] {
      IndexBack(indexes[0]);
      IndexesBack(indexes[1..]);
      assert IndexLines(indexes)[1..] == IndexLines(indexes[1..]);
      assert indexes == [indexes[0]] + indexes[1..];
    }
  }

  lemma CollectionLineBack(c: Collection)
    ensures EndCounts(CollectionLine(c)) == Not && ParseHeader(CollectionLine(c)) == Is(Header(c.name, c.indexes))
  {
    KeysDiffer();
    IndexesBack(c.indexes);
    hide IndexLines, ParseIndexes;
    TwoOf(COLLECTION_KEY, JString(c.name), INDEXES_KEY, JArray(IndexLines(c.indexes)));
  }

  lemma EndLineBack(collections: nat, documents: nat)
    requires collections < TWO64 && documents < TWO64
    ensures EndCounts(EndLine(collections, documents)) == Is(Counts(collections, documents))
  {
    KeysDiffer();
    TwoOf(COLLECTIONS_KEY, FromCount(collections), DOCUMENTS_KEY, FromCount(documents));
  }

  lemma HeaderLineBack(version: nat)
    requires 1 <= version <= VERSION
    ensures CheckHeader(HeaderLine(version)) == Some(version)
  {
  }

  // ------------------------------------------------------------------------- import

  /** What an import does to the database, in order. */
  datatype Event =
    | Create(name: Name)
    | Inserted(name: Name, id: DocId, doc: Document)
    | Build(name: Name, indexes: seq<Index>)

  /** Where an import stands: the version the header named, the counts, the
      collection its documents go to, and the chunk not written yet. */
  datatype State = State(
    version: Option<nat>, ended: bool, collections: nat, documents: nat, current: Option<Header>,
    chunk: seq<Event>, events: seq<Event>)

  const START: State := State(None, false, 0, 0, None, [], [])

  function Built(current: Option<Header>): (events: seq<Event>) {
    if current.None? then [] else [Build(current.value.name, current.value.indexes)]
  }

  /** One line; `full` if the chunk is to be written after it, `newId` an id for a
      document without one. Nothing where the line is refused. */
  function Step(ids: Ids, s: State, line: Json, full: bool, newId: DocId): (after: Option<State>) {
    if s.ended then None
    else if s.version.None? then
      var version := CheckHeader(line);
      if version.None? then None else Some(s.(version := version))
    else
      var end := EndCounts(line);
      if !end.Not? then
        if s.version.value < VERSION || end.Malformed? || end.value != Counts(s.collections, s.documents) then None
        else Some(s.(ended := true))
      else
        var header := ParseHeader(line);
        match header
        case Malformed => None
        case Is(h) =>
          Some(s.(collections := s.collections + 1, current := Some(h), chunk := [],
                  events := s.events + s.chunk + Built(s.current) + [Create(h.name)]))
        case Not => DocumentStep(ids, s, line, full, newId)
  }

  function DocumentStep(ids: Ids, s: State, line: Json, full: bool, newId: DocId): (after: Option<State>)
    requires s.version.Some?
  {
    if s.current.None? || !line.JObject? then None
    else
      var parsed := ParseDocumentLine(ids, line.fields, s.version.value >= 2);
      if parsed.None? || !parsed.value.doc.Object? then None
      else
        var id := if parsed.value.id.Some? then parsed.value.id.value else newId;
        var more := s.chunk + [Inserted(s.current.value.name, id, parsed.value.doc)];
        Some(if full then s.(documents := s.documents + 1, chunk := [], events := s.events + more)
             else s.(documents := s.documents + 1, chunk := more))
  }

  /** What a line comes with: whether the chunk is full after it, and a fresh id. */
  datatype Around = Around(full: bool, newId: DocId)

  function Steps(ids: Ids, s: State, lines: seq<Json>, around: seq<Around>): (after: Option<State>)
    requires |lines| == |around|
    decreases |lines|
  {
    if lines == [] then Some(s)
    else
      var next := Step(ids, s, lines[0], around[0].full, around[0].newId);
      if next.None? then None else Steps(ids, next.value, lines[1..], around[1..])
  }

  datatype Outcome = Outcome(collections: nat, documents: nat, ended: bool, events: seq<Event>)

  /** The end of the input: the last chunk written, the last indexes built; but an
      export of version 3 without its end line is cut short. */
  function Finish(s: State): (outcome: Option<Outcome>) {
    if s.version.None? || (s.version.value >= VERSION && !s.ended) then None
    else Some(Outcome(s.collections, s.documents, s.ended, s.events + s.chunk + Built(s.current)))
  }

  /** An import, or what it had done when it was refused: that stays. */
  datatype Imported = Whole(outcome: Outcome) | Refused(done: seq<Event>)

  /** What is written by the line refused: the chunk under way is not; but it is, where
      only the end is missing. */
  function DoneBefore(ids: Ids, s: State, lines: seq<Json>, around: seq<Around>): (done: seq<Event>)
    requires |lines| == |around|
    decreases |lines|
  {
    if lines == [] then Flat(s)
    else
      var next := Step(ids, s, lines[0], around[0].full, around[0].newId);
      if next.None? then s.events else DoneBefore(ids, next.value, lines[1..], around[1..])
  }

  function Import(ids: Ids, lines: seq<Json>, around: seq<Around>): (imported: Imported)
    requires |lines| == |around|
  {
    var s := Steps(ids, START, lines, around);
    if s.None? || Finish(s.value).None? then Refused(DoneBefore(ids, START, lines, around))
    else Whole(Finish(s.value).value)
  }

  /** What is there to write, and what is written already. */
  function Flat(s: State): (events: seq<Event>) {
    s.events + s.chunk
  }

  /** `import_counting`, line by line. */
  method ImportLines(ids: Ids, lines: seq<Json>, around: seq<Around>) returns (imported: Imported)
    requires |lines| == |around|
    ensures imported == Import(ids, lines, around)
  {
    var s := START;
    assert lines[0..] == lines && around[0..] == around;
    for i := 0 to |lines|
      invariant Steps(ids, START, lines, around) == Steps(ids, s, lines[i..], around[i..])
      invariant DoneBefore(ids, START, lines, around) == DoneBefore(ids, s, lines[i..], around[i..])
    {
      hide Step, Flat;
      assert lines[i..][1..] == lines[i + 1..] && around[i..][1..] == around[i + 1..];
      var next := Step(ids, s, lines[i], around[i].full, around[i].newId);
      if next.None? {
        return Refused(s.events);
      }
      s := next.value;
    }
    hide Step, Flat;
    var outcome := Finish(s);
    imported := if outcome.None? then Refused(Flat(s)) else Whole(outcome.value);
  }

  lemma {:induction false} StepsJoin(ids: Ids, s: State, a: seq<Json>, b: seq<Json>, x: seq<Around>, y: seq<Around>)
    requires |a| == |x| && |b| == |y|
    ensures Steps(ids, s, a + b, x + y)
         == var mid := Steps(ids, s, a, x); if mid.None? then None else Steps(ids, mid.value, b, y)
    decreases |a|
  {
    hide Step;
    if a == [] {
      assert a + b == b && x + y == y;
    } else {
      assert (a + b)[1..] == a[1..] + b && (x + y)[1..] == x[1..] + y;
      var next := Step(ids, s, a[0], x[0].full, x[0].newId);
      if next.Some? { StepsJoin(ids, next.value, a[1..], b, x[1..], y); }
    }
  }

  lemma {:induction false} VersionStays(ids: Ids, s: State, lines: seq<Json>, around: seq<Around>)
    requires |lines| == |around|
    ensures var after := Steps(ids, s, lines, around);
            after.Some? && s.version.Some? ==> after.value.version == s.version
    ensures var after := Steps(ids, s, lines, around);
            after.Some? && lines != [] ==> after.value.version.Some?
    decreases |lines|
  {
    if lines != [] {
      var next := Step(ids, s, lines[0], around[0].full, around[0].newId);
      hide Step;
      if next.Some? { VersionStays(ids, next.value, lines[1..], around[1..]); }
    }
  }

  /** Each line adds to what is written or to be. */
  lemma StepAdds(ids: Ids, s: State, line: Json, full: bool, newId: DocId)
    ensures var next := Step(ids, s, line, full, newId); next.Some? ==> Flat(s) <= Flat(next.value)
  {
    hide ParseDocumentLine, EndCounts, ParseHeader, CheckHeader;
  }

  /** A document with which its chunk is full is written with all before it; any other
      waits. */
  lemma ChunkIs(ids: Ids, s: State, line: Json, full: bool, newId: DocId)
    ensures var next := Step(ids, s, line, full, newId);
            next.Some? && next.value.documents > s.documents ==>
              if full then next.value.events == Flat(next.value) else next.value.events == s.events
  {
    hide ParseDocumentLine, EndCounts, ParseHeader, CheckHeader;
  }

  lemma {:induction false} StepsAdd(ids: Ids, s: State, lines: seq<Json>, around: seq<Around>)
    requires |lines| == |around|
    ensures var after := Steps(ids, s, lines, around); after.Some? ==> Flat(s) <= Flat(after.value)
    decreases |lines|
  {
    hide Step, Flat;
    if lines != [] {
      StepAdds(ids, s, lines[0], around[0].full, around[0].newId);
      var next := Step(ids, s, lines[0], around[0].full, around[0].newId);
      if next.Some? { StepsAdd(ids, next.value, lines[1..], around[1..]); }
    }
  }

  lemma {:induction false} DoneAfter(ids: Ids, s: State, lines: seq<Json>, around: seq<Around>)
    requires |lines| == |around| && Steps(ids, s, lines, around).Some?
    ensures DoneBefore(ids, s, lines, around) == Flat(Steps(ids, s, lines, around).value)
    decreases |lines|
  {
    hide Step, Flat;
    if lines != [] {
      DoneAfter(ids, Step(ids, s, lines[0], around[0].full, around[0].newId).value, lines[1..], around[1..]);
    }
  }

  /** Of an export of version 3 that imports no proper beginning does; and what is done
      of it is the beginning of what the whole does. */
  lemma CutShortIsRefused(ids: Ids, lines: seq<Json>, around: seq<Around>, n: nat)
    requires |lines| == |around| && n < |lines| && Import(ids, lines, around).Whole?
    requires Steps(ids, START, lines, around).value.version == Some(VERSION)
    ensures var cut := Import(ids, lines[..n], around[..n]);
            cut.Refused? && cut.done <= Import(ids, lines, around).outcome.events
  {
    assert lines == lines[..n] + lines[n..] && around == around[..n] + around[n..];
    StepsJoin(ids, START, lines[..n], lines[n..], around[..n], around[n..]);
    var mid := Steps(ids, START, lines[..n], around[..n]).value;
    VersionStays(ids, START, lines[..n], around[..n]);
    VersionStays(ids, mid, lines[n..], around[n..]);
    EndedTakesNoMore(ids, mid, lines[n..], around[n..]);
    DoneAfter(ids, START, lines[..n], around[..n]);
    StepsAdd(ids, mid, lines[n..], around[n..]);
    hide Steps, DoneBefore, Flat;
  }

  /** A line refused part way leaves what was written of the lines before it, chunk by
      chunk. */
  lemma BadLineIsRefused(ids: Ids, lines: seq<Json>, around: seq<Around>, n: nat, rest: seq<Json>, after: seq<Around>)
    requires |lines| == |around| && n <= |lines| && Import(ids, lines, around).Whole?
    requires |rest| == |after| && rest != []
    requires var mid := Steps(ids, START, lines[..n], around[..n]);
             mid.Some? ==> Step(ids, mid.value, rest[0], after[0].full, after[0].newId).None?
    ensures var (mid, imported) :=
              (Steps(ids, START, lines[..n], around[..n]), Import(ids, lines[..n] + rest, around[..n] + after));
            && mid.Some? && imported == Refused(mid.value.events)
            && imported.done <= Import(ids, lines, around).outcome.events
  {
    assert lines == lines[..n] + lines[n..] && around == around[..n] + around[n..];
    StepsJoin(ids, START, lines[..n], lines[n..], around[..n], around[n..]);
    StepsJoin(ids, START, lines[..n], rest, around[..n], after);
    var mid := Steps(ids, START, lines[..n], around[..n]).value;
    DoneJoin(ids, START, lines[..n], rest, around[..n], after);
    StepsAdd(ids, mid, lines[n..], around[n..]);
    hide Step;
    assert Steps(ids, mid, rest, after).None? && DoneBefore(ids, mid, rest, after) == mid.events;
    hide Steps, DoneBefore;
  }

  lemma {:induction false} DoneJoin(ids: Ids, s: State, a: seq<Json>, b: seq<Json>, x: seq<Around>, y: seq<Around>)
    requires |a| == |x| && |b| == |y| && Steps(ids, s, a, x).Some?
    ensures DoneBefore(ids, s, a + b, x + y) == DoneBefore(ids, Steps(ids, s, a, x).value, b, y)
    decreases |a|
  {
    hide Step, Flat;
    if a == [] {
      assert a + b == b && x + y == y;
    } else {
      assert (a + b)[1..] == a[1..] + b && (x + y)[1..] == x[1..] + y;
      DoneJoin(ids, Step(ids, s, a[0], x[0].full, x[0].newId).value, a[1..], b, x[1..], y);
    }
  }

  lemma EndedTakesNoMore(ids: Ids, s: State, lines: seq<Json>, around: seq<Around>)
    requires |lines| == |around| && lines != []
    ensures s.ended ==> Steps(ids, s, lines, around).None?
  {
  }

  // ----------------------------------------------------------- an export is imported

  predicate Reading(s: State, version: nat) {
    s.version == Some(version) && 1 <= version <= VERSION && !s.ended
  }

  /** `$date` came with version 2. */
  predicate Dated(version: nat) {
    version != 1
  }

  function Inserts(name: Name, docs: seq<(DocId, Document)>, dates: bool): (events: seq<Event>) {
    if docs == [] then [] else [Inserted(name, docs[0].0, Normal(docs[0].1, dates))] + Inserts(name, docs[1..], dates)
  }

  ghost predicate AllStored(docs: seq<(DocId, Document)>) {
    forall i :: 0 <= i < |docs| ==> IsStored(docs[i].1, docs[i].0) && docs[i].1.Object?
  }

  lemma DocumentStepIs(ids: Ids, s: State, version: nat, id: DocId, doc: Document, around: Around)
    requires IdsOk(ids) && IsStored(doc, id) && doc.Object? && Reading(s, version) && s.current.Some?
    ensures var after := Step(ids, s, JObject(DocumentLine(ids, id, doc)), around.full, around.newId);
            && after.Some? && Reading(after.value, version) && after.value.current == s.current
            && after.value.collections == s.collections && after.value.documents == s.documents + 1
            && Flat(after.value) == Flat(s) + [Inserted(s.current.value.name, id, Normal(doc, Dated(version)))]
  {
    DocumentLineIsNoOther(ids, id, doc);
    LineBack(ids, id, doc, Dated(version));
    hide DocumentLine, ParseDocumentLine, EndCounts, ParseHeader, IsStored, IdsOk;
    assert Normal(doc, Dated(version)).Object?;
  }

  lemma {:induction false} DocumentSteps(ids: Ids, s: State, version: nat, docs: seq<(DocId, Document)>, around: seq<Around>)
    requires IdsOk(ids) && AllStored(docs) && Reading(s, version) && s.current.Some? && |around| == |docs|
    ensures |DocumentLines(ids, docs)| == |docs|
    ensures var after := Steps(ids, s, DocumentLines(ids, docs), around);
            && after.Some? && Reading(after.value, version) && after.value.current == s.current
            && after.value.collections == s.collections && after.value.documents == s.documents + |docs|
            && Flat(after.value) == Flat(s) + Inserts(s.current.value.name, docs, Dated(version))
    decreases |docs|
  {
    LinesLength(ids, docs);
    hide Step, DocumentLine, IsStored, IdsOk, Normal, Flat;
    if docs == [] {
      assert Flat(s) + [] == Flat(s);
    } else {
      DocumentStepIs(ids, s, version, docs[0].0, docs[0].1, around[0]);
      var lines := DocumentLines(ids, docs);
      assert lines[1..] == DocumentLines(ids, docs[1..]);
      var next := Step(ids, s, lines[0], around[0].full, around[0].newId).value;
      DocumentSteps(ids, next, version, docs[1..], around[1..]);
      assert Flat(s) + ([Inserted(s.current.value.name, docs[0].0, Normal(docs[0].1, Dated(version)))] + Inserts(s.current.value.name, docs[1..], Dated(version)))
          == Flat(s) + [Inserted(s.current.value.name, docs[0].0, Normal(docs[0].1, Dated(version)))] + Inserts(s.current.value.name, docs[1..], Dated(version));
    }
  }

  lemma {:induction false} LinesLength(ids: Ids, docs: seq<(DocId, Document)>)
    ensures |DocumentLines(ids, docs)| == |docs|
    decreases |docs|
  {
    hide DocumentLine;
    if docs != [] { LinesLength(ids, docs[1..]); }
  }

  /** What restoring collections does: each made, its documents in, its indexes
      built. */
  function Restored(db: seq<Collection>, dates: bool): (events: seq<Event>) {
    if db == [] then []
    else [Create(db[0].name)] + Inserts(db[0].name, db[0].docs, dates) + [Build(db[0].name, db[0].indexes)] + Restored(db[1..], dates)
  }

  lemma CollectionStepIs(ids: Ids, s: State, version: nat, c: Collection, around: Around)
    requires Reading(s, version)
    ensures var after := Step(ids, s, CollectionLine(c), around.full, around.newId);
            && after.Some? && Reading(after.value, version) && after.value.current == Some(Header(c.name, c.indexes))
            && after.value.collections == s.collections + 1 && after.value.documents == s.documents
            && Flat(after.value) == Flat(s) + Built(s.current) + [Create(c.name)]
  {
    CollectionLineBack(c);
    hide CollectionLine, EndCounts, ParseHeader;
  }

  /** One collection's lines. */
  lemma CollectionSteps(ids: Ids, s: State, version: nat, c: Collection, around: seq<Around>)
    requires IdsOk(ids) && AllStored(c.docs) && Reading(s, version) && |around| == 1 + |c.docs|
    ensures |[CollectionLine(c)] + DocumentLines(ids, c.docs)| == |around|
    ensures var after := Steps(ids, s, [CollectionLine(c)] + DocumentLines(ids, c.docs), around);
            && after.Some? && Reading(after.value, version) && after.value.current == Some(Header(c.name, c.indexes))
            && after.value.collections == s.collections + 1 && after.value.documents == s.documents + |c.docs|
            && Flat(after.value) == Flat(s) + Built(s.current) + [Create(c.name)] + Inserts(c.name, c.docs, Dated(version))
  {
    LinesLength(ids, c.docs);
    hide Step, CollectionLine, Flat, IdsOk, AllStored;
    CollectionStepIs(ids, s, version, c, around[0]);
    var lines := [CollectionLine(c)] + DocumentLines(ids, c.docs);
    assert lines[1..] == DocumentLines(ids, c.docs);
    var next := Step(ids, s, lines[0], around[0].full, around[0].newId).value;
    DocumentSteps(ids, next, version, c.docs, around[1..]);
  }

  ghost predicate DbStored(db: seq<Collection>) {
    forall i :: 0 <= i < |db| ==> AllStored(db[i].docs)
  }

  lemma {:induction false} AllCollectionSteps(ids: Ids, s: State, version: nat, db: seq<Collection>, around: seq<Around>)
    requires IdsOk(ids) && DbStored(db) && Reading(s, version) && |around| == |CollectionLines(ids, db)|
    ensures var after := Steps(ids, s, CollectionLines(ids, db), around);
            && after.Some? && Reading(after.value, version)
            && after.value.collections == s.collections + |db| && after.value.documents == s.documents + DocumentCount(db)
            && Flat(after.value) + Built(after.value.current) == Flat(s) + Built(s.current) + Restored(db, Dated(version))
    decreases |db|
  {
    hide Step, CollectionLine, Flat, IdsOk, AllStored, Steps, DocumentLines, Inserts;
    if db == [] {
      NoSteps(ids, s, around);
      assert Flat(s) + Built(s.current) + [] == Flat(s) + Built(s.current);
    } else {
      var c := db[0];
      LinesLength(ids, c.docs);
      var k := 1 + |c.docs|;
      var first, rest := [CollectionLine(c)] + DocumentLines(ids, c.docs), CollectionLines(ids, db[1..]);
      assert CollectionLines(ids, db) == first + rest && around == around[..k] + around[k..];
      StepsJoin(ids, s, first, rest, around[..k], around[k..]);
      CollectionSteps(ids, s, version, c, around[..k]);
      var mid := Steps(ids, s, first, around[..k]).value;
      AllCollectionSteps(ids, mid, version, db[1..], around[k..]);
      EventsJoin(Flat(s) + Built(s.current), [Create(c.name)], Inserts(c.name, c.docs, Dated(version)), [Build(c.name, c.indexes)], Restored(db[1..], Dated(version)));
    }
  }

  lemma EventsJoin(a: seq<Event>, b: seq<Event>, c: seq<Event>, d: seq<Event>, e: seq<Event>)
    ensures a + b + c + d + e == a + (b + c + d + e)
  {
  }

  lemma NoSteps(ids: Ids, s: State, around: seq<Around>)
    requires |around| == 0
    ensures Steps(ids, s, [], around) == Some(s)
  {
  }

  /** An export imports: the counts match, and what it does to a new database is
      restore every collection, document and index, in order. However the chunks
      fall. */
  lemma ExportImports(ids: Ids, db: seq<Collection>, around: seq<Around>)
    requires IdsOk(ids) && DbStored(db) && |around| == |ExportLines(ids, db)|
    requires |db| < TWO64 && DocumentCount(db) < TWO64
    ensures Import(ids, ExportLines(ids, db), around) == Whole(Outcome(|db|, DocumentCount(db), true, Restored(db, true)))
    ensures Steps(ids, START, ExportLines(ids, db), around).value.version == Some(VERSION)
  {
    var lines := CollectionLines(ids, db);
    var n := |lines|;
    hide Steps, CollectionLines, IdsOk, DbStored;
    var all := [HeaderLine(VERSION)] + lines + [EndLine(|db|, DocumentCount(db))];
    assert around == (around[..1] + around[1..n + 1]) + around[n + 1..];
    StepsJoin(ids, START, [HeaderLine(VERSION)] + lines, [EndLine(|db|, DocumentCount(db))], around[..1] + around[1..n + 1], around[n + 1..]);
    StepsJoin(ids, START, [HeaderLine(VERSION)], lines, around[..1], around[1..n + 1]);
    var s := START.(version := Some(VERSION));
    FirstLine(ids, VERSION, around[..1]);
    AllCollectionSteps(ids, s, VERSION, db, around[1..n + 1]);
    var t := Steps(ids, s, lines, around[1..n + 1]).value;
    LastLine(ids, t, |db|, DocumentCount(db), around[n + 1..]);
    assert [] + [] + Restored(db, true) == Restored(db, true);
  }

  lemma FirstLine(ids: Ids, version: nat, around: seq<Around>)
    requires |around| == 1 && 1 <= version <= VERSION
    ensures Steps(ids, START, [HeaderLine(version)], around) == Some(START.(version := Some(version)))
  {
    HeaderLineBack(version);
    hide HeaderLine, CheckHeader;
    OneStep(ids, START, HeaderLine(version), around);
  }

  lemma OneStep(ids: Ids, s: State, line: Json, around: seq<Around>)
    requires |around| == 1
    ensures Steps(ids, s, [line], around) == Step(ids, s, line, around[0].full, around[0].newId)
  {
    hide Step;
    assert [line][1..] == [] && around[1..] == [];
  }

  lemma LastLine(ids: Ids, s: State, collections: nat, documents: nat, around: seq<Around>)
    requires Reading(s, VERSION) && |around| == 1 && collections < TWO64 && documents < TWO64
    requires s.collections == collections && s.documents == documents
    ensures Steps(ids, s, [EndLine(collections, documents)], around) == Some(s.(ended := true))
  {
    EndLineBack(collections, documents);
    hide EndLine, EndCounts;
    OneStep(ids, s, EndLine(collections, documents), around);
  }

  // ------------------------------------------------------------- the database restored

  /** A collection of a database: its indexes by their fields, its documents by id. */
  datatype Contents = Contents(indexes: map<seq<Name>, Index>, docs: map<DocId, Document>)

  type Db = map<Name, Contents>

  /** An index made where there is none on those fields; one there with other options
      is an error. */
  function Ensured(indexes: map<seq<Name>, Index>, more: seq<Index>): (after: Option<map<seq<Name>, Index>>)
    decreases |more|
  {
    if more == [] then Some(indexes)
    else if more[0].fields in indexes && indexes[more[0].fields] != more[0] then None
    else Ensured(indexes[more[0].fields := more[0]], more[1..])
  }

  /** What an event does: a collection is made if there is none, an id already there
      is an error. */
  function Perform(db: Db, e: Event): (after: Option<Db>) {
    match e
    case Create(name) => Some(if name in db then db else db[name := Contents(map[], map[])])
    case Inserted(name, id, doc) =>
      if name !in db || id in db[name].docs then None
      else Some(db[name := db[name].(docs := db[name].docs[id := doc])])
    case Build(name, indexes) =>
      if name !in db then None
      else
        var after := Ensured(db[name].indexes, indexes);
        if after.None? then None else Some(db[name := db[name].(indexes := after.value)])
  }

  function PerformAll(db: Db, events: seq<Event>): (after: Option<Db>)
    decreases |events|
  {
    if events == [] then Some(db)
    else
      var next := Perform(db, events[0]);
      if next.None? then None else PerformAll(next.value, events[1..])
  }

  lemma {:induction false} PerformJoin(db: Db, a: seq<Event>, b: seq<Event>)
    requires PerformAll(db, a).Some?
    ensures PerformAll(db, a + b) == PerformAll(PerformAll(db, a).value, b)
    decreases |a|
  {
    hide Perform;
    if a == [] {
      assert a + b == b;
    } else {
      assert (a + b)[1..] == a[1..] + b;
      PerformJoin(Perform(db, a[0]).value, a[1..], b);
    }
  }

  /** Just these pairs. */
  ghost predicate Has<K, V>(m: map<K, V>, pairs: seq<(K, V)>) {
    && (forall k :: k in m ==> exists i :: 0 <= i < |pairs| && pairs[i].0 == k)
    && (forall i :: 0 <= i < |pairs| ==> pairs[i].0 in m && m[pairs[i].0] == pairs[i].1)
  }

  lemma HasOneMore<K, V>(m: map<K, V>, pairs: seq<(K, V)>, k: K, v: V)
    requires Has(m, pairs) && forall i :: 0 <= i < |pairs| ==> pairs[i].0 != k
    ensures k !in m && Has(m[k := v], pairs + [(k, v)])
  {
    var (more, after) := (pairs + [(k, v)], m[k := v]);
    forall x | x in after ensures exists i :: 0 <= i < |more| && more[i].0 == x {
      if x == k {
        assert more[|pairs|].0 == x;
      } else {
        var i :| 0 <= i < |pairs| && pairs[i].0 == x;
        assert more[i].0 == x;
      }
    }
  }

  ghost predicate KeysApart<K, V>(pairs: seq<(K, V)>) {
    forall i, j :: 0 <= i < j < |pairs| ==> pairs[i].0 != pairs[j].0
  }

  /** The next of the pairs to come, new to those that were. */
  lemma NextIsNew<K, V>(done: seq<(K, V)>, rest: seq<(K, V)>)
    requires rest != [] && KeysApart(done + rest)
    ensures done + [rest[0]] + rest[1..] == done + rest
    ensures forall i :: 0 <= i < |done| ==> done[i].0 != rest[0].0
  {
    var all := done + rest;
    assert forall i :: 0 <= i < |done| ==> all[i] == done[i];
    assert all[|done|] == rest[0];
  }

  /** Documents by id, as they come back. */
  function ById(docs: seq<(DocId, Document)>, dates: bool): (pairs: seq<(DocId, Document)>)
    ensures |pairs| == |docs|
  {
    seq(|docs|, i requires 0 <= i < |docs| => (docs[i].0, Normal(docs[i].1, dates)))
  }

  function ByFields(indexes: seq<Index>): (pairs: seq<(seq<Name>, Index)>)
    ensures |pairs| == |indexes|
  {
    seq(|indexes|, i requires 0 <= i < |indexes| => (indexes[i].fields, indexes[i]))
  }

  lemma {:induction false} InsertsPerform(db: Db, name: Name, done: seq<(DocId, Document)>, docs: seq<(DocId, Document)>, dates: bool)
    requires name in db && Has(db[name].docs, done) && KeysApart(done + ById(docs, dates))
    ensures var after := PerformAll(db, Inserts(name, docs, dates));
            && after.Some? && name in after.value
            && after.value == db[name := db[name].(docs := after.value[name].docs)]
            && Has(after.value[name].docs, done + ById(docs, dates))
    decreases |docs|
  {
    hide Normal, Has, KeysApart;
    if docs == [] {
      assert done + ById(docs, dates) == done;
      assert db[name := db[name].(docs := db[name].docs)] == db;
    } else {
      var (id, doc) := (docs[0].0, Normal(docs[0].1, dates));
      assert ById(docs, dates)[1..] == ById(docs[1..], dates) && ById(docs, dates)[0] == (id, doc);
      NextIsNew(done, ById(docs, dates));
      HasOneMore(db[name].docs, done, id, doc);
      var next := db[name := db[name].(docs := db[name].docs[id := doc])];
      InsertsPerform(next, name, done + [(id, doc)], docs[1..], dates);
      FirstInsert(db, name, docs, dates);
      hide PerformAll, Inserts, ById;
    }
  }

  lemma {:induction false} FirstInsert(db: Db, name: Name, docs: seq<(DocId, Document)>, dates: bool)
    requires docs != [] && name in db && docs[0].0 !in db[name].docs
    ensures PerformAll(db, Inserts(name, docs, dates))
         == PerformAll(db[name := db[name].(docs := db[name].docs[docs[0].0 := Normal(docs[0].1, dates)])], Inserts(name, docs[1..], dates))
  {
    var (id, doc) := (docs[0].0, Normal(docs[0].1, dates));
    hide Normal;
    var next := db[name := db[name].(docs := db[name].docs[id := doc])];
    assert Inserts(name, docs, dates)[0] == Inserted(name, id, doc) && Inserts(name, docs, dates)[1..] == Inserts(name, docs[1..], dates);
    assert Perform(db, Inserted(name, id, doc)) == Some(next);
  }

  lemma {:induction false} EnsuredIs(have: map<seq<Name>, Index>, done: seq<(seq<Name>, Index)>, indexes: seq<Index>)
    requires Has(have, done) && KeysApart(done + ByFields(indexes))
    ensures var after := Ensured(have, indexes);
            after.Some? && Has(after.value, done + ByFields(indexes))
    decreases |indexes|
  {
    hide Has, KeysApart;
    if indexes == [] {
      assert done + ByFields(indexes) == done;
    } else {
      var first := indexes[0];
      assert ByFields(indexes)[1..] == ByFields(indexes[1..]) && ByFields(indexes)[0] == (first.fields, first);
      NextIsNew(done, ByFields(indexes));
      HasOneMore(have, done, first.fields, first);
      EnsuredIs(have[first.fields := first], done + [(first.fields, first)], indexes[1..]);
      hide ByFields;
    }
  }

  /** A collection as it was exported: every index, and every document under its id,
      but for what a NaN carries besides being one. */
  ghost predicate IsRestored(c: Collection, contents: Contents, dates: bool) {
    Has(contents.docs, ById(c.docs, dates)) && Has(contents.indexes, ByFields(c.indexes))
  }

  /** Just these collections, as they were exported. */
  ghost predicate AllRestored(db: seq<Collection>, after: Db, dates: bool) {
    && (forall name :: name in after ==> exists i :: 0 <= i < |db| && db[i].name == name)
    && (forall i :: 0 <= i < |db| ==> db[i].name in after && IsRestored(db[i], after[db[i].name], dates))
  }

  /** One collection, new to the database. */
  lemma {:induction false} CollectionPerforms(db: Db, c: Collection, dates: bool)
    requires c.name !in db && KeysApart(ById(c.docs, dates)) && KeysApart(ByFields(c.indexes))
    ensures var after := PerformAll(db, [Create(c.name)] + Inserts(c.name, c.docs, dates) + [Build(c.name, c.indexes)]);
            && after.Some? && c.name in after.value && after.value == db[c.name := after.value[c.name]]
            && IsRestored(c, after.value[c.name], dates)
  {
    hide *;
    var made := db[c.name := Contents(map[], map[])];
    OneEvent(db, Create(c.name));
    StartsEmpty(db, c, dates);
    InsertsPerform(made, c.name, [], c.docs, dates);
    var filled := PerformAll(made, Inserts(c.name, c.docs, dates)).value;
    OneEvent(filled, Build(c.name, c.indexes));
    BuildPerforms(filled, c, dates);
    PerformJoin(db, [Create(c.name)], Inserts(c.name, c.docs, dates));
    PerformJoin(db, [Create(c.name)] + Inserts(c.name, c.docs, dates), [Build(c.name, c.indexes)]);
  }

  lemma StartsEmpty(db: Db, c: Collection, dates: bool)
    requires c.name !in db && KeysApart(ById(c.docs, dates))
    ensures var made := db[c.name := Contents(map[], map[])];
            && Perform(db, Create(c.name)) == Some(made) && Has(made[c.name].docs, [])
            && [] + ById(c.docs, dates) == ById(c.docs, dates)
  {
    hide ById, KeysApart;
  }

  lemma BuildPerforms(filled: Db, c: Collection, dates: bool)
    requires c.name in filled && filled[c.name].indexes == map[] && KeysApart(ByFields(c.indexes))
    requires Has(filled[c.name].docs, ById(c.docs, dates))
    ensures var after := Perform(filled, Build(c.name, c.indexes));
            && after.Some? && c.name in after.value && after.value == filled[c.name := after.value[c.name]]
            && IsRestored(c, after.value[c.name], dates)
  {
    var none: seq<(seq<Name>, Index)> := [];
    assert Has(map[], none);
    hide Ensured, ById, ByFields, Has, KeysApart;
    assert [] + ByFields(c.indexes) == ByFields(c.indexes);
    EnsuredIs(map[], [], c.indexes);
  }

  lemma {:induction false} OneEvent(db: Db, e: Event)
    ensures PerformAll(db, [e]) == Perform(db, e)
  {
    hide Perform;
    assert [e][1..] == [];
  }

  /** A database has no name, id or index fields twice. */
  ghost predicate IsDatabase(db: seq<Collection>) {
    && (forall i, j :: 0 <= i < j < |db| ==> db[i].name != db[j].name)
    && (forall i :: 0 <= i < |db| ==> KeysApart(db[i].docs) && KeysApart(ByFields(db[i].indexes)))
  }

  lemma {:induction false} AllPerform(have: Db, done: seq<Collection>, db: seq<Collection>, dates: bool)
    requires AllRestored(done, have, dates) && IsDatabase(done + db)
    ensures var after := PerformAll(have, Restored(db, dates));
            after.Some? && AllRestored(done + db, after.value, dates)
    decreases |db|
  {
    hide IsRestored, AllRestored, IsDatabase;
    if db == [] {
      assert done + db == done;
    } else {
      var (c, rest) := (db[0], db[1..]);
      NextCollection(have, done, db, dates);
      var first := [Create(c.name)] + Inserts(c.name, c.docs, dates) + [Build(c.name, c.indexes)];
      hide PerformAll, Inserts, ById, ByFields, Restored;
      CollectionPerforms(have, c, dates);
      var next := PerformAll(have, first).value;
      RestoredOneMore(have, done, c, next, dates);
      AllPerform(next, done + [c], rest, dates);
      PerformJoin(have, first, Restored(rest, dates));
      RestoredOf(db, dates);
    }
  }

  lemma RestoredOf(db: seq<Collection>, dates: bool)
    requires db != []
    ensures Restored(db, dates)
         == [Create(db[0].name)] + Inserts(db[0].name, db[0].docs, dates) + [Build(db[0].name, db[0].indexes)] + Restored(db[1..], dates)
  {
    hide Inserts;
  }

  lemma NextCollection(have: Db, done: seq<Collection>, db: seq<Collection>, dates: bool)
    requires db != [] && AllRestored(done, have, dates) && IsDatabase(done + db)
    ensures done + [db[0]] + db[1..] == done + db && db[0].name !in have
    ensures KeysApart(ById(db[0].docs, dates)) && KeysApart(ByFields(db[0].indexes))
  {
    hide IsRestored, ByFields;
    var all := done + db;
    IdsApart(db[0].docs, dates);
    hide ById, KeysApart;
    assert all[|done|] == db[0] && forall i :: 0 <= i < |done| ==> all[i] == done[i];
  }

  lemma IdsApart(docs: seq<(DocId, Document)>, dates: bool)
    ensures KeysApart(docs) ==> KeysApart(ById(docs, dates))
  {
    hide Normal;
  }

  lemma RestoredOneMore(have: Db, done: seq<Collection>, c: Collection, after: Db, dates: bool)
    requires AllRestored(done, have, dates) && c.name !in have && c.name in after
    requires after == have[c.name := after[c.name]] && IsRestored(c, after[c.name], dates)
    ensures AllRestored(done + [c], after, dates)
  {
    hide IsRestored;
    var more := done + [c];
    forall name | name in after ensures exists i :: 0 <= i < |more| && more[i].name == name {
      if name == c.name {
        assert more[|done|].name == name;
      } else {
        var i :| 0 <= i < |done| && done[i].name == name;
        assert more[i].name == name;
      }
    }
  }

  /** What is exported and imported into an empty database is the database. */
  lemma ExportRestores(ids: Ids, db: seq<Collection>, around: seq<Around>)
    requires IdsOk(ids) && DbStored(db) && IsDatabase(db) && |around| == |ExportLines(ids, db)|
    requires |db| < TWO64 && DocumentCount(db) < TWO64
    ensures var imported := Import(ids, ExportLines(ids, db), around);
            && imported.Whole?
            && var after := PerformAll(map[], imported.outcome.events);
               after.Some? && AllRestored(db, after.value, true)
  {
    hide IdsOk, DbStored, IsDatabase, Import, ExportLines, PerformAll, Restored, IsRestored;
    ExportImports(ids, db, around);
    assert AllRestored([], map[], true);
    assert [] + db == db;
    hide AllRestored;
    AllPerform(map[], [], db, true);
  }

  /** An export cut short leaves a database with the beginning of it. */
  lemma CutExportLeaves(ids: Ids, db: seq<Collection>, around: seq<Around>, n: nat)
    requires IdsOk(ids) && DbStored(db) && IsDatabase(db) && |around| == |ExportLines(ids, db)|
    requires |db| < TWO64 && DocumentCount(db) < TWO64 && n < |around|
    ensures var imported := Import(ids, ExportLines(ids, db)[..n], around[..n]);
            && imported.Refused? && imported.done <= Restored(db, true) && PerformAll(map[], imported.done).Some?
  {
    hide IdsOk, DbStored, IsDatabase, Import, ExportLines, PerformAll, Restored, Steps;
    ExportImports(ids, db, around);
    ExportRestores(ids, db, around);
    CutShortIsRefused(ids, ExportLines(ids, db), around, n);
    var done := Import(ids, ExportLines(ids, db)[..n], around[..n]).done;
    assert Restored(db, true) == done + Restored(db, true)[|done|..];
    BeginningPerforms(map[], done, Restored(db, true)[|done|..]);
  }

  lemma {:induction false} BeginningPerforms(db: Db, a: seq<Event>, b: seq<Event>)
    requires PerformAll(db, a + b).Some?
    ensures PerformAll(db, a).Some?
    decreases |a|
  {
    hide Perform;
    if a != [] {
      assert (a + b)[1..] == a[1..] + b;
      BeginningPerforms(Perform(db, a[0]).value, a[1..], b);
    }
  }

  // ------------------------------------------------------------------ older exports

  /** An export of version 1 or 2: it has no end line. */
  function OlderLines(ids: Ids, version: nat, db: seq<Collection>): (lines: seq<Json>)
    requires version < VERSION
  {
    [HeaderLine(version)] + CollectionLines(ids, db)
  }

  /** It imports: with every date-time of version 2, and every object that only looks
      like one of version 1. */
  lemma OlderImports(ids: Ids, version: nat, db: seq<Collection>, around: seq<Around>)
    requires IdsOk(ids) && DbStored(db) && (version == 1 || version == 2) && |around| == |OlderLines(ids, version, db)|
    ensures Import(ids, OlderLines(ids, version, db), around)
         == Whole(Outcome(|db|, DocumentCount(db), false, Restored(db, version == 2)))
    ensures Steps(ids, START, OlderLines(ids, version, db), around).Some?
  {
    var lines := CollectionLines(ids, db);
    hide Steps, CollectionLines, IdsOk, DbStored, HeaderLine, DocumentCount, Restored;
    assert around == around[..1] + around[1..];
    StepsJoin(ids, START, [HeaderLine(version)], lines, around[..1], around[1..]);
    FirstLine(ids, version, around[..1]);
    AllCollectionSteps(ids, START.(version := Some(version)), version, db, around[1..]);
    assert [] + [] + Restored(db, version == 2) == Restored(db, version == 2);
  }

  /** So into an empty database it restores the collections. */
  lemma OlderRestores(ids: Ids, version: nat, db: seq<Collection>, around: seq<Around>)
    requires IdsOk(ids) && DbStored(db) && (version == 1 || version == 2) && |around| == |OlderLines(ids, version, db)|
    requires IsDatabase(db)
    ensures var imported := Import(ids, OlderLines(ids, version, db), around);
            && imported.Whole? && !imported.outcome.ended
            && var after := PerformAll(map[], imported.outcome.events);
               after.Some? && AllRestored(db, after.value, version == 2)
  {
    hide IdsOk, DbStored, IsDatabase, Import, OlderLines, PerformAll, Restored, IsRestored;
    OlderImports(ids, version, db, around);
    assert AllRestored([], map[], version == 2);
    assert [] + db == db;
    hide AllRestored;
    AllPerform(map[], [], db, version == 2);
  }

  /** Cut short after its header it imports all the same: nothing tells. */
  lemma OlderCutImports(ids: Ids, lines: seq<Json>, around: seq<Around>, n: nat)
    requires |lines| == |around| && 1 <= n <= |lines| && Import(ids, lines, around).Whole?
    requires Steps(ids, START, lines, around).value.version.value < VERSION
    ensures var cut := Import(ids, lines[..n], around[..n]);
            cut.Whole? && !cut.outcome.ended
  {
    assert lines == lines[..n] + lines[n..] && around == around[..n] + around[n..];
    StepsJoin(ids, START, lines[..n], lines[n..], around[..n], around[n..]);
    var mid := Steps(ids, START, lines[..n], around[..n]).value;
    VersionStays(ids, START, lines[..n], around[..n]);
    VersionStays(ids, mid, lines[n..], around[n..]);
    NoEndBefore3(ids, START, lines[..n], around[..n]);
    hide Steps, DoneBefore;
  }

  /** An end line is refused before version 3. */
  lemma {:induction false} NoEndBefore3(ids: Ids, s: State, lines: seq<Json>, around: seq<Around>)
    requires |lines| == |around| && !s.ended
    ensures var after := Steps(ids, s, lines, around);
            after.Some? && after.value.version.Some? && after.value.version.value < VERSION ==> !after.value.ended
    decreases |lines|
  {
    if lines != [] {
      var next := Step(ids, s, lines[0], around[0].full, around[0].newId);
      if next.Some? {
        VersionStays(ids, next.value, lines[1..], around[1..]);
        hide ParseDocumentLine, EndCounts, ParseHeader, CheckHeader;
        if !next.value.ended { NoEndBefore3(ids, next.value, lines[1..], around[1..]); }
      }
    }
  }

  /** And the import with it. */
  lemma OlderEndIsRefused(ids: Ids, version: nat, db: seq<Collection>, around: seq<Around>, end: Json, last: Around)
    requires IdsOk(ids) && DbStored(db) && (version == 1 || version == 2) && |around| == |OlderLines(ids, version, db)|
    requires !EndCounts(end).Not?
    ensures Import(ids, OlderLines(ids, version, db) + [end], around + [last]).Refused?
  {
    var lines := OlderLines(ids, version, db);
    hide IdsOk, DbStored, OlderLines, Steps, EndCounts, DoneBefore;
    OlderImports(ids, version, db, around);
    StepsJoin(ids, START, lines, [end], around, [last]);
    var s := Steps(ids, START, lines, around).value;
    OneStep(ids, s, end, [last]);
    VersionStays(ids, START, lines, around);
  }

  // --------------------------------------------------- documents that are no objects

  /** What an older file may have besides: documents that are no objects. */
  ghost predicate AllKept(docs: seq<(DocId, Document)>) {
    forall i :: 0 <= i < |docs| ==> IsStored(docs[i].1, docs[i].0)
  }

  ghost predicate DbKept(db: seq<Collection>) {
    forall i :: 0 <= i < |db| ==> AllKept(db[i].docs)
  }

  ghost predicate AllObjects(docs: seq<(DocId, Document)>) {
    forall i :: 0 <= i < |docs| ==> docs[i].1.Object?
  }

  /** A line with a plain value is refused. */
  lemma PlainIsRefused(ids: Ids, s: State, id: DocId, doc: Document, around: Around)
    requires IdsOk(ids) && IsStored(doc, id) && !doc.Object? && Reading(s, VERSION)
    ensures Step(ids, s, JObject(DocumentLine(ids, id, doc)), around.full, around.newId).None?
  {
    DocumentLineIsNoOther(ids, id, doc);
    LineBack(ids, id, doc, true);
    hide DocumentLine, ParseDocumentLine, EndCounts, ParseHeader, IsStored, IdsOk;
    assert !Normal(doc, true).Object?;
  }

  lemma {:induction false} OnlyObjects(ids: Ids, s: State, docs: seq<(DocId, Document)>, around: seq<Around>)
    requires IdsOk(ids) && AllKept(docs) && Reading(s, VERSION) && s.current.Some? && |around| == |docs|
    ensures |DocumentLines(ids, docs)| == |docs|
    ensures Steps(ids, s, DocumentLines(ids, docs), around).Some? ==> AllObjects(docs)
    decreases |docs|
  {
    LinesLength(ids, docs);
    hide Step, DocumentLine, IsStored, IdsOk, Flat;
    if docs != [] {
      var lines := DocumentLines(ids, docs);
      assert lines[1..] == DocumentLines(ids, docs[1..]);
      if docs[0].1.Object? {
        DocumentStepIs(ids, s, VERSION, docs[0].0, docs[0].1, around[0]);
        var next := Step(ids, s, lines[0], around[0].full, around[0].newId).value;
        OnlyObjects(ids, next, docs[1..], around[1..]);
        assert docs == [docs[0]] + docs[1..];
      } else {
        PlainIsRefused(ids, s, docs[0].0, docs[0].1, around[0]);
      }
    }
  }

  lemma {:induction false} OnlyStored(ids: Ids, s: State, db: seq<Collection>, around: seq<Around>)
    requires IdsOk(ids) && DbKept(db) && Reading(s, VERSION) && |around| == |CollectionLines(ids, db)|
    ensures Steps(ids, s, CollectionLines(ids, db), around).Some? ==> DbStored(db)
    decreases |db|
  {
    hide Step, CollectionLine, Flat, IdsOk, Steps, DocumentLines, Inserts;
    if db != [] {
      var c := db[0];
      LinesLength(ids, c.docs);
      var k := 1 + |c.docs|;
      var first, rest := [CollectionLine(c)] + DocumentLines(ids, c.docs), CollectionLines(ids, db[1..]);
      assert CollectionLines(ids, db) == first + rest && around == around[..k] + around[k..];
      StepsJoin(ids, s, first, rest, around[..k], around[k..]);
      OneOnlyStored(ids, s, c, around[..k]);
      if AllStored(c.docs) {
        CollectionSteps(ids, s, VERSION, c, around[..k]);
        hide AllStored, AllKept;
        OnlyStored(ids, Steps(ids, s, first, around[..k]).value, db[1..], around[k..]);
        assert db == [c] + db[1..];
      }
    }
  }

  lemma OneOnlyStored(ids: Ids, s: State, c: Collection, around: seq<Around>)
    requires IdsOk(ids) && AllKept(c.docs) && Reading(s, VERSION) && |around| == 1 + |c.docs|
    ensures |[CollectionLine(c)] + DocumentLines(ids, c.docs)| == |around|
    ensures Steps(ids, s, [CollectionLine(c)] + DocumentLines(ids, c.docs), around).Some? ==> AllStored(c.docs)
  {
    LinesLength(ids, c.docs);
    CollectionStepIs(ids, s, VERSION, c, around[0]);
    hide Step, CollectionLine, Flat, IdsOk, IsStored;
    var lines := [CollectionLine(c)] + DocumentLines(ids, c.docs);
    assert lines[1..] == DocumentLines(ids, c.docs);
    var next := Step(ids, s, lines[0], around[0].full, around[0].newId).value;
    OnlyObjects(ids, next, c.docs, around[1..]);
  }

  /** An export imports if and only if every document in it is an object. */
  lemma ExportImportsIf(ids: Ids, db: seq<Collection>, around: seq<Around>)
    requires IdsOk(ids) && DbKept(db) && |around| == |ExportLines(ids, db)|
    requires |db| < TWO64 && DocumentCount(db) < TWO64
    ensures Import(ids, ExportLines(ids, db), around).Whole? <==> forall i :: 0 <= i < |db| ==> AllObjects(db[i].docs)
  {
    StoredIsObjects(db);
    hide IdsOk, AllKept, AllStored, AllObjects;
    if DbStored(db) {
      ExportImports(ids, db, around);
    } else {
      var lines := CollectionLines(ids, db);
      var n := |lines|;
      hide DbStored, DbKept, Steps, CollectionLines, HeaderLine, EndLine, DoneBefore;
      assert around == (around[..1] + around[1..n + 1]) + around[n + 1..];
      var end := [EndLine(|db|, DocumentCount(db))];
      StepsJoin(ids, START, [HeaderLine(VERSION)] + lines, end, around[..1] + around[1..n + 1], around[n + 1..]);
      StepsJoin(ids, START, [HeaderLine(VERSION)], lines, around[..1], around[1..n + 1]);
      FirstLine(ids, VERSION, around[..1]);
      OnlyStored(ids, START.(version := Some(VERSION)), db, around[1..n + 1]);
    }
  }

  lemma StoredIsObjects(db: seq<Collection>)
    requires DbKept(db)
    ensures DbStored(db) <==> forall i :: 0 <= i < |db| ==> AllObjects(db[i].docs)
  {
    hide IsStored;
    if DbStored(db) {
      forall i | 0 <= i < |db| ensures AllObjects(db[i].docs) { assert AllStored(db[i].docs); }
    }
    if forall i :: 0 <= i < |db| ==> AllObjects(db[i].docs) {
      forall i | 0 <= i < |db| ensures AllStored(db[i].docs) { assert AllKept(db[i].docs) && AllObjects(db[i].docs); }
    }
  }
}
