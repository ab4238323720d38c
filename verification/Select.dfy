/** The fields a read hands out (`src/select.rs`): a document cut down to a tree
    of paths, in memory or straight from its encoding. */
module Select {
  import opened Values
  import opened Codec

  /** What is selected at one place in a document: the value whole, or some of an
      object's fields in the order first named. */
  datatype Node = Whole | Fields(fields: seq<(Name, Node)>)

  /** The paths selected, and those taken out of what they hand out. */
  datatype Selection = Selection(root: Node, except: Node)

  type Tree = seq<(Name, Node)>

  /** The first of the fields with that name. */
  function Position(fields: Tree, name: Name): (at: Option<nat>)
    ensures at.Some? ==> at.value < |fields| && fields[at.value].0 == name
    ensures at.Some? ==> forall j :: 0 <= j < at.value ==> fields[j].0 != name
    ensures at.None? ==> forall j :: 0 <= j < |fields| ==> fields[j].0 != name
  {
    if fields == [] then None
    else if fields[0].0 == name then Some(0)
    else
      var rest := Position(fields[1..], name);
      assert forall j :: 1 <= j < |fields| ==> fields[1..][j - 1] == fields[j];
      if rest.None? then None else Some(rest.value + 1)
  }

  // ---------------------------------------------------------- what a read hands out

  /** What a selection hands out of a value, if anything. */
  function Cut(node: Node, value: Document): (cut: Option<Document>)
    decreases node, 0
  {
    match node
    case Whole => Some(value)
    case Fields(inner) =>
      if !value.Object? then None
      else
        var picked := Picked(value.fields, inner, 0, []);
        if picked == [] then None else Some(Object(picked))
  }

  function CutBy(field: (Name, Node), value: Document): (cut: Option<Document>)
    decreases field, 0
  {
    Cut(field.1, value)
  }

  /** What the `i`th field hands out of an object; one named twice hands it out
      the first time. */
  function Slot(entries: seq<Entry>, fields: Tree, i: nat): (slot: Option<Document>)
    requires i < |fields|
    decreases fields, 0
  {
    var value := Lookup(entries, fields[i].0);
    if value.None? || Position(fields, fields[i].0) != Some(i) then None else CutBy(fields[i], value.value)
  }

  /** The selected fields from the `i`th on, in the selection's order, added to
      `out`. */
  function Picked(entries: seq<Entry>, fields: Tree, i: nat, out: seq<Entry>): (picked: seq<Entry>)
    requires i <= |fields|
    decreases fields, 1, |fields| - i
  {
    if i == |fields| then out else Picked(entries, fields, i + 1, Added(out, fields[i].0, Slot(entries, fields, i)))
  }

  function Added(out: seq<Entry>, name: Name, slot: Option<Document>): (after: seq<Entry>) {
    if slot.None? then out else Insert(out, name, slot.value)
  }

  /** What is left of an entry when the excepted fields are taken out. */
  function Spared(field: (Name, Node), value: Document): (left: Option<Document>)
    decreases field, 0
  {
    match field.1
    case Whole => None
    case Fields(inner) => if value.Object? then Some(Object(Left(value.fields, inner))) else Some(value)
  }

  /** An object less the excepted fields, the others keeping their order. */
  function Left(entries: seq<Entry>, fields: Tree): (left: seq<Entry>)
    decreases fields, 1, entries
  {
    if entries == [] then []
    else
      var rest := Left(entries[1..], fields);
      var at := Position(fields, entries[0].0);
      var value := if at.None? then Some(entries[0].1) else Spared(fields[at.value], entries[0].1);
      if value.None? then rest else [(entries[0].0, value.value)] + rest
  }

  function IdOf(entries: seq<Entry>): (out: seq<Entry>) {
    Added([], ID_FIELD, Lookup(entries, ID_FIELD))
  }

  /** `take_out`. */
  function TakenOut(except: Node, doc: Document): (after: Document) {
    if !doc.Object? then doc
    else if except.Whole? then Object(IdOf(doc.fields))
    else Object(Left(doc.fields, except.fields))
  }

  /** `project`: a document cut down to the selection, its `_id` first. */
  function Project(s: Selection, doc: Document): (after: Document) {
    if s.root.Whole? then TakenOut(s.except, doc)
    else if !doc.Object? then doc
    else TakenOut(s.except, Object(Picked(Without(doc.fields, ID_FIELD), s.root.fields, 0, IdOf(doc.fields))))
  }

  // ----------------------------------------------------------------- lookups

  lemma {:induction false} LookupInsert(entries: seq<Entry>, name: Name, value: Document, x: Name)
    ensures Lookup(Insert(entries, name, value), x) == if x == name then Some(value) else Lookup(entries, x)
  {
    if entries != [] && entries[0].0 != name {
      LookupInsert(entries[1..], name, value, x);
    }
  }

  lemma {:induction false} LookupWithout(entries: seq<Entry>, name: Name, x: Name)
    ensures Lookup(Without(entries, name), x) == if x == name then None else Lookup(entries, x)
  {
    if entries != [] { LookupWithout(entries[1..], name, x); }
  }

  /** A slot changes only for the first field with the name. */
  lemma SlotInsert(entries: seq<Entry>, fields: Tree, i: nat, name: Name, value: Document)
    requires i < |fields|
    ensures Slot(Insert(entries, name, value), fields, i)
         == if Position(fields, name) == Some(i) then CutBy(fields[i], value) else Slot(entries, fields, i)
  {
    LookupInsert(entries, name, value, fields[i].0);
  }

  // ---------------------------------------------------------- straight from bytes

  /** An object's entries, from its count on. */
  function DecodeCounted(bytes: seq<byte>, levels: nat): (r: Read<seq<Entry>>) {
    var count := TakeNumber(bytes, 4, AnObjectLength);
    if count.Bad? then Bad(count.damage) else DecodeEntries(count.rest, levels, count.value, [])
  }

  /** The document's own `_id` is passed over. */
  function Seen(entries: seq<Entry>, top: bool): (seen: seq<Entry>) {
    if top then Without(entries, ID_FIELD) else entries
  }

  function SelectedOf(full: Read<seq<Entry>>, fields: Tree, top: bool, out: seq<Entry>): (r: Read<seq<Entry>>) {
    if full.Bad? then Bad(full.damage) else Good(Picked(Seen(full.value, top), fields, 0, out), full.rest)
  }

  function CutOf(full: Read<Document>, node: Node): (r: Read<Option<Document>>) {
    if full.Bad? then Bad(full.damage) else Good(Cut(node, full.value), full.rest)
  }

  /** Every slot is what the fields hand out of the entries so far. */
  ghost predicate SlotsAre(slots: seq<Option<Document>>, entries: seq<Entry>, fields: Tree, top: bool) {
    |slots| == |fields| && forall i :: 0 <= i < |fields| ==> slots[i] == Slot(Seen(entries, top), fields, i)
  }

  lemma {:induction false} WithoutInsert(entries: seq<Entry>, name: Name, value: Document, gone: Name)
    ensures Without(Insert(entries, name, value), gone)
         == if name == gone then Without(entries, gone) else Insert(Without(entries, gone), name, value)
  {
    if entries != [] && entries[0].0 != name {
      WithoutInsert(entries[1..], name, value, gone);
    }
  }

  /** `decode_object`: an object's selected fields, the others skipped unbuilt, is
      the selection of the whole object, or its damage. */
  method DecodeObjectOf(bytes: seq<byte>, fields: Tree, levels: nat, top: bool, out: seq<Entry>)
    returns (r: Read<seq<Entry>>)
    ensures r == SelectedOf(DecodeCounted(bytes, levels), fields, top, out)
    decreases levels, 2
  {
    hide Slot, Insert, TakeStr, DecodeEntries, Decode, Picked, Without;
    var slots := seq(|fields|, _ => None);
    var count := TakeNumber(bytes, 4, AnObjectLength);
    if count.Bad? {
      return Bad(count.damage);
    }
    var rest := count.rest;
    ghost var entries: seq<Entry> := [];
    NoSlots(slots, fields, top);
    for i := 0 to count.value
      invariant SlotsAre(slots, entries, fields, top)
      invariant DecodeEntries(count.rest, levels, count.value, []) == DecodeEntries(rest, levels, count.value - i, entries)
    {
      EntriesStep(rest, levels, count.value - i, entries);
      var key := TakeStr(rest, AKey);
      if key.Bad? {
        return Bad(key.damage);
      }
      ghost var value := Decode(key.rest, levels);
      var at := if top && key.value == ID_FIELD then None else Position(fields, key.value);
      var slot := DecodeSlot(key.rest, if at.None? then None else Some(fields[at.value].1), levels);
      if slot.Bad? {
        return Bad(slot.damage);
      }
      SlotsInsert(slots, entries, fields, top, key.value, value.value, at);
      if at.Some? {
        slots := slots[at.value := slot.value];
      }
      entries := Insert(entries, key.value, value.value);
      rest := slot.rest;
    }
    EntriesDone(rest, levels, entries);
    var all := PutAll(slots, entries, fields, top, out);
    r := Good(all, rest);
  }

  lemma NoSlots(slots: seq<Option<Document>>, fields: Tree, top: bool)
    requires |slots| == |fields| && forall i :: 0 <= i < |slots| ==> slots[i].None?
    ensures SlotsAre(slots, [], fields, top)
  {
  }

  lemma SlotsInsert(
    slots: seq<Option<Document>>, entries: seq<Entry>, fields: Tree, top: bool, name: Name, value: Document,
    at: Option<nat>)
    requires SlotsAre(slots, entries, fields, top)
    requires at == if top && name == ID_FIELD then None else Position(fields, name)
    ensures SlotsAre(if at.None? then slots else slots[at.value := Cut(fields[at.value].1, value)],
                     Insert(entries, name, value), fields, top)
  {
    hide Slot, Position, Insert, Without, Cut;
    WithoutInsert(entries, name, value, ID_FIELD);
    forall i | 0 <= i < |fields|
      ensures Slot(Seen(Insert(entries, name, value), top), fields, i)
           == if at == Some(i) then Cut(fields[i].1, value) else slots[i]
    {
      SlotInsert(Seen(entries, top), fields, i, name, value);
    }
  }

  /** One value: skipped, decoded, or selected in part. */
  method DecodeSlot(bytes: seq<byte>, node: Option<Node>, levels: nat) returns (r: Read<Option<Document>>)
    ensures node.None? ==> r == match Decode(bytes, levels) { case Bad(d) => Bad(d) case Good(_, rest) => Good(None, rest) }
    ensures node.Some? ==> r == CutOf(Decode(bytes, levels), node.value)
    decreases levels, 1
  {
    hide Decode;
    if node.None? {
      var past := SkipValue(bytes, levels);
      return if past.Damaged? then Bad(past.damage) else Good(None, past.rest);
    }
    if node.value.Whole? {
      var value := DecodeValue(bytes, levels);
      return if value.Bad? then Bad(value.damage) else Good(Some(value.value), value.rest);
    }
    r := DecodeInner(bytes, node.value.fields, levels);
  }

  /** `decode_inner`: one value selected in part. */
  method DecodeInner(bytes: seq<byte>, fields: Tree, levels: nat) returns (r: Read<Option<Document>>)
    ensures r == CutOf(Decode(bytes, levels), Fields(fields))
    decreases levels, 0
  {
    hide Decode, Picked, DecodeEntries;
    DecodeOpens(bytes, levels);
    if bytes == [] || bytes[0] != TAG_OBJECT || levels == 0 {
      var past := SkipValue(bytes, levels);
      NotAnObject(bytes, levels);
      return if past.Damaged? then Bad(past.damage) else Good(None, past.rest);
    }
    var inner := DecodeObjectOf(bytes[1..], fields, levels - 1, false, []);
    if inner.Bad? {
      return Bad(inner.damage);
    }
    r := Good(if inner.value == [] then None else Some(Object(inner.value)), inner.rest);
  }

  lemma NotAnObject(bytes: seq<byte>, levels: nat)
    requires bytes == [] || bytes[0] != TAG_OBJECT || levels == 0
    ensures Decode(bytes, levels).Good? ==> !Decode(bytes, levels).value.Object?
  {
    hide Decode, DecodeItems, DecodeEntries;
    DecodeOpens(bytes, levels);
  }

  method PutAll(slots: seq<Option<Document>>, ghost entries: seq<Entry>, fields: Tree, top: bool, out: seq<Entry>)
    returns (all: seq<Entry>)
    requires SlotsAre(slots, entries, fields, top)
    ensures all == Picked(Seen(entries, top), fields, 0, out)
  {
    all := out;
    for i := 0 to |fields|
      invariant Picked(Seen(entries, top), fields, 0, out) == Picked(Seen(entries, top), fields, i, all)
    {
      hide Slot, Seen, Insert;
      if slots[i].Some? {
        all := Insert(all, fields[i].0, slots[i].value);
      }
    }
  }

  // ------------------------------------------------------- less some of the fields

  function LeftOf(full: Read<seq<Entry>>, fields: Tree, top: bool, out: seq<Entry>): (r: Read<seq<Entry>>) {
    if full.Bad? then Bad(full.damage) else Good(out + Left(Seen(full.value, top), fields), full.rest)
  }

  /** What is left of a value under a name, if anything. */
  function SparedAt(fields: Tree, name: Name, value: Document): (left: Option<Document>) {
    var at := Position(fields, name);
    if at.None? then Some(value) else Spared(fields[at.value], value)
  }

  /** A field is dropped for its name alone. */
  predicate Drops(fields: Tree, name: Name) {
    var at := Position(fields, name);
    at.Some? && fields[at.value].1.Whole?
  }

  lemma LeftCons(entry: Entry, rest: seq<Entry>, fields: Tree)
    ensures Left([entry] + rest, fields)
         == if Drops(fields, entry.0) then Left(rest, fields)
            else [(entry.0, SparedAt(fields, entry.0, entry.1).value)] + Left(rest, fields)
    ensures Drops(fields, entry.0) <==> SparedAt(fields, entry.0, entry.1).None?
  {
    assert ([entry] + rest)[1..] == rest;
    hide Position;
  }

  lemma {:induction false} LeftInsert(entries: seq<Entry>, fields: Tree, name: Name, value: Document)
    ensures SparedAt(fields, name, value).None? <==> Drops(fields, name)
    ensures Left(Insert(entries, name, value), fields)
         == if Drops(fields, name) then Left(entries, fields)
            else Insert(Left(entries, fields), name, SparedAt(fields, name, value).value)
    decreases entries
  {
    hide Left, SparedAt, Drops;
    LeftCons((name, value), if entries == [] then [] else entries[1..], fields);
    if entries == [] {
      LeftNone(fields);
      assert [(name, value)] + [] == [(name, value)];
    } else {
      assert entries == [entries[0]] + entries[1..];
      LeftCons(entries[0], entries[1..], fields);
      if entries[0].0 != name {
        LeftInsert(entries[1..], fields, name, value);
        LeftCons(entries[0], Insert(entries[1..], name, value), fields);
      }
    }
  }

  lemma LeftNone(fields: Tree)
    ensures Left([], fields) == []
  {
  }

  lemma {:induction false} InsertAfter(out: seq<Entry>, entries: seq<Entry>, name: Name, value: Document)
    requires forall e <- out :: e.0 != name
    ensures Insert(out + entries, name, value) == out + Insert(entries, name, value)
  {
    if out == [] {
      assert out + entries == entries && out + Insert(entries, name, value) == Insert(entries, name, value);
    } else {
      assert out[0] in out && (out + entries)[1..] == out[1..] + entries;
      InsertAfter(out[1..], entries, name, value);
    }
  }

  /** `out` begins with nothing, or with the document's `_id` alone. */
  predicate Begins(out: seq<Entry>, top: bool) {
    out == [] || (top && |out| == 1 && out[0].0 == ID_FIELD)
  }

  /** One more entry decoded, less what is excepted. */
  lemma ExceptStep(out: seq<Entry>, entries: seq<Entry>, fields: Tree, top: bool, name: Name, value: Document)
    requires Begins(out, top)
    ensures var all := out + Left(Seen(entries, top), fields);
            var left := SparedAt(fields, name, value);
            out + Left(Seen(Insert(entries, name, value), top), fields)
            == if (top && name == ID_FIELD) || left.None? then all else Insert(all, name, left.value)
  {
    hide Left, SparedAt, Drops, Without, Insert;
    WithoutInsert(entries, name, value, ID_FIELD);
    LeftInsert(Seen(entries, top), fields, name, value);
    if !(top && name == ID_FIELD) && SparedAt(fields, name, value).Some? {
      InsertAfter(out, Left(Seen(entries, top), fields), name, SparedAt(fields, name, value).value);
    }
  }

  /** `decode_except`: an object less the excepted fields, those skipped unbuilt,
      is what is left of the whole object, or its damage. */
  method DecodeExcept(bytes: seq<byte>, fields: Tree, levels: nat, top: bool, out: seq<Entry>)
    returns (r: Read<seq<Entry>>)
    requires Begins(out, top)
    ensures r == LeftOf(DecodeCounted(bytes, levels), fields, top, out)
    decreases levels, 2
  {
    hide Left, SparedAt, Insert, TakeStr, DecodeEntries, Decode, Without;
    var count := TakeNumber(bytes, 4, AnObjectLength);
    if count.Bad? {
      return Bad(count.damage);
    }
    var rest, all := count.rest, out;
    ghost var entries: seq<Entry> := [];
    NothingLeft(out, fields, top);
    for i := 0 to count.value
      invariant all == out + Left(Seen(entries, top), fields)
      invariant DecodeEntries(count.rest, levels, count.value, []) == DecodeEntries(rest, levels, count.value - i, entries)
    {
      EntriesStep(rest, levels, count.value - i, entries);
      var key := TakeStr(rest, AKey);
      if key.Bad? {
        return Bad(key.damage);
      }
      ghost var value := Decode(key.rest, levels);
      var left := DecodeLeft(key.rest, fields, levels, key.value, top && key.value == ID_FIELD);
      if left.Bad? {
        return Bad(left.damage);
      }
      ExceptStep(out, entries, fields, top, key.value, value.value);
      if left.value.Some? {
        all := Insert(all, key.value, left.value.value);
      }
      entries := Insert(entries, key.value, value.value);
      rest := left.rest;
    }
    EntriesDone(rest, levels, entries);
    r := Good(all, rest);
  }

  lemma NothingLeft(out: seq<Entry>, fields: Tree, top: bool)
    ensures out == out + Left(Seen([], top), fields)
  {
  }

  function LeftValue(full: Read<Document>, fields: Tree, name: Name, skip: bool): (r: Read<Option<Document>>) {
    if full.Bad? then Bad(full.damage)
    else Good(if skip then None else SparedAt(fields, name, full.value), full.rest)
  }

  /** One value: skipped, decoded, or opened for what is left of it. */
  method DecodeLeft(bytes: seq<byte>, fields: Tree, levels: nat, name: Name, skip: bool)
    returns (r: Read<Option<Document>>)
    ensures r == LeftValue(Decode(bytes, levels), fields, name, skip)
    decreases levels, 1
  {
    hide Decode, Left, DecodeEntries;
    var at := Position(fields, name);
    if skip || (at.Some? && fields[at.value].1.Whole?) {
      var past := SkipValue(bytes, levels);
      return if past.Damaged? then Bad(past.damage) else Good(None, past.rest);
    }
    DecodeOpens(bytes, levels);
    if at.Some? && bytes != [] && bytes[0] == TAG_OBJECT && levels > 0 {
      var kept := DecodeExcept(bytes[1..], fields[at.value].1.fields, levels - 1, false, []);
      assert forall left: seq<Entry> :: [] + left == left;
      return if kept.Bad? then Bad(kept.damage) else Good(Some(Object(kept.value)), kept.rest);
    }
    var value := DecodeValue(bytes, levels);
    if at.Some? {
      NotAnObject(bytes, levels);
    }
    r := if value.Bad? then Bad(value.damage) else Good(Some(value.value), value.rest);
  }

  // --------------------------------------------------------------- the whole read

  function ProjectOf(full: Read<Document>, s: Selection, id: DocId): (r: Read<Document>) {
    if full.Bad? then Bad(full.damage) else Good(Project(s, WithId(full.value, id)), full.rest)
  }

  /** What a tree of excepted paths never names: `_id`, at the top. */
  predicate SparesId(except: Node) {
    except.Fields? ==> Position(except.fields, ID_FIELD).None?
  }

  /** `decode`: the selection of a stored document from its encoding is the
      projection of the document decoded whole, and it is damaged exactly where,
      and as, the whole document is. For every byte string and every selection. */
  method DecodeSelection(s: Selection, encoded: seq<byte>, id: DocId) returns (r: Read<Document>)
    requires SparesId(s.except)
    ensures r == ProjectOf(Decode(encoded, MAX_NESTING), s, id)
  {
    hide Decode, DecodeEntries, Picked, Left, Without, Insert;
    DecodeOpens(encoded, MAX_NESTING);
    if encoded == [] || encoded[0] != TAG_OBJECT {
      var whole := DecodeValue(encoded, MAX_NESTING);
      NotAnObject(encoded, MAX_NESTING);
      return if whole.Bad? then whole else Good(WithId(whole.value, id), whole.rest);
    }
    var out := [(ID_FIELD, Id(id))];
    if s.root.Whole? && s.except.Fields? {
      var left := DecodeExcept(encoded[1..], s.except.fields, MAX_NESTING - 1, true, out);
      if left.Bad? {
        return Bad(left.damage);
      }
      WholeLess(DecodeCounted(encoded[1..], MAX_NESTING - 1).value, s, id);
      return Good(Object(left.value), left.rest);
    }
    var fields := if s.root.Fields? then s.root.fields else [];
    var picked := DecodeObjectOf(encoded[1..], fields, MAX_NESTING - 1, true, out);
    if picked.Bad? {
      return Bad(picked.damage);
    }
    PickedLess(DecodeCounted(encoded[1..], MAX_NESTING - 1).value, s, id);
    r := Good(TakenOut(s.except, Object(picked.value)), picked.rest);
  }

  lemma WholeLess(entries: seq<Entry>, s: Selection, id: DocId)
    requires s.root.Whole? && s.except.Fields? && SparesId(s.except)
    ensures Project(s, WithId(Object(entries), id))
         == Object([(ID_FIELD, Id(id))] + Left(Seen(entries, true), s.except.fields))
  {
    hide Left;
    LeftCons((ID_FIELD, Id(id)), Without(entries, ID_FIELD), s.except.fields);
  }

  lemma PickedLess(entries: seq<Entry>, s: Selection, id: DocId)
    requires s.root.Fields? || s.except.Whole?
    ensures var fields := if s.root.Fields? then s.root.fields else [];
            Project(s, WithId(Object(entries), id))
            == TakenOut(s.except, Object(Picked(Seen(entries, true), fields, 0, [(ID_FIELD, Id(id))])))
  {
    hide Left;
    var kept := Without(entries, ID_FIELD);
    var doc := WithId(Object(entries), id);
    assert doc.fields[1..] == kept;
    assert IdOf(doc.fields) == [(ID_FIELD, Id(id))];
    WithoutTwice(entries, ID_FIELD);
    assert Without(doc.fields, ID_FIELD) == kept;
  }

  lemma {:induction false} WithoutTwice(entries: seq<Entry>, name: Name)
    ensures Without(Without(entries, name), name) == Without(entries, name)
  {
    if entries != [] { WithoutTwice(entries[1..], name); }
  }

  // --------------------------------------------------------------- some fields only

  /** The entries of those names, `_id` never: the cell's own is used. */
  function Named(entries: seq<Entry>, names: seq<Name>): (kept: seq<Entry>) {
    if entries == [] then []
    else
      var rest := Named(entries[1..], names);
      if entries[0].0 != ID_FIELD && entries[0].0 in names then [entries[0]] + rest else rest
  }

  lemma {:induction false} NamedInsert(entries: seq<Entry>, names: seq<Name>, name: Name, value: Document)
    ensures Named(Insert(entries, name, value), names)
         == if name != ID_FIELD && name in names then Insert(Named(entries, names), name, value) else Named(entries, names)
  {
    if entries != [] && entries[0].0 != name {
      NamedInsert(entries[1..], names, name, value);
    }
  }

  function FieldsOf(full: Read<seq<Entry>>, id: DocId, names: seq<Name>): (r: Read<Document>) {
    if full.Bad? then Bad(full.damage)
    else Good(Object((if ID_FIELD in names then [(ID_FIELD, Id(id))] else []) + Named(full.value, names)), full.rest)
  }

  /** `decode_fields`: a stored object's fields among `names`, from its encoding.
      It is damaged exactly where, and as, the whole object is; but where only
      `_id` is named, nothing is read. */
  method DecodeFields(encoded: seq<byte>, id: DocId, names: seq<Name>) returns (r: Read<Document>)
    ensures encoded == [] || encoded[0] != TAG_OBJECT ==>
              r == ProjectOf(Decode(encoded, MAX_NESTING), Selection(Whole, Fields([])), id)
    ensures encoded != [] && encoded[0] == TAG_OBJECT && (forall n <- names :: n == ID_FIELD) ==>
              r == Good(Object(if names != [] then [(ID_FIELD, Id(id))] else []), encoded)
    ensures encoded != [] && encoded[0] == TAG_OBJECT && (exists n <- names :: n != ID_FIELD) ==>
              r == FieldsOf(DecodeCounted(encoded[1..], MAX_NESTING - 1), id, names)
  {
    hide Decode, DecodeEntries, TakeStr, Insert, Named, Left;
    if encoded == [] || encoded[0] != TAG_OBJECT {
      var whole := DecodeValue(encoded, MAX_NESTING);
      NotAnObject(encoded, MAX_NESTING);
      return if whole.Bad? then whole else Good(WithId(whole.value, id), whole.rest);
    }
    var out := if ID_FIELD in names then [(ID_FIELD, Id(id))] else [];
    if forall n <- names :: n == ID_FIELD {
      assert names != [] ==> names[0] in names;
      return Good(Object(out), encoded);
    }
    var count := TakeNumber(encoded[1..], 4, AnObjectLength);
    if count.Bad? {
      return Bad(count.damage);
    }
    var levels := MAX_NESTING - 1;
    var rest, all := count.rest, out;
    ghost var entries: seq<Entry> := [];
    NoneNamed(out, names);
    for i := 0 to count.value
      invariant all == out + Named(entries, names)
      invariant DecodeEntries(count.rest, levels, count.value, []) == DecodeEntries(rest, levels, count.value - i, entries)
    {
      EntriesStep(rest, levels, count.value - i, entries);
      var key := TakeStr(rest, AKey);
      if key.Bad? {
        return Bad(key.damage);
      }
      ghost var value := Decode(key.rest, levels);
      NamedInsert(entries, names, key.value, if value.Good? then value.value else Null);
      if key.value != ID_FIELD && key.value in names {
        var read := DecodeValue(key.rest, levels);
        if read.Bad? {
          return read;
        }
        InsertAfter(out, Named(entries, names), key.value, read.value);
        all, rest := Insert(all, key.value, read.value), read.rest;
      } else {
        var past := SkipValue(key.rest, levels);
        if past.Damaged? {
          return Bad(past.damage);
        }
        rest := past.rest;
      }
      entries := Insert(entries, key.value, value.value);
    }
    EntriesDone(rest, levels, entries);
    r := Good(Object(all), rest);
  }

  lemma NoneNamed(out: seq<Entry>, names: seq<Name>)
    ensures out == out + Named([], names)
  {
  }

  // -------------------------------------------------------------------- in memory

  /** `swap_remove`: the last field takes the place of the one removed. */
  function SwapRemove(entries: seq<Entry>, name: Name): (after: seq<Entry>) {
    if entries == [] then []
    else if entries[0].0 == name then
      if |entries| == 1 then [] else [entries[|entries| - 1]] + entries[1..|entries| - 1]
    else [entries[0]] + SwapRemove(entries[1..], name)
  }

  lemma {:induction false} LookupHas(entries: seq<Entry>, i: nat)
    requires IsMap(entries) && i < |entries|
    ensures Lookup(entries, entries[i].0) == Some(entries[i].1)
  {
    if i > 0 {
      assert entries[0].0 != entries[i].0;
      assert entries[1..][i - 1] == entries[i];
      LookupHas(entries[1..], i - 1);
    }
  }

  lemma {:induction false} LookupNone(entries: seq<Entry>, name: Name)
    ensures Lookup(entries, name).None? <==> forall i :: 0 <= i < |entries| ==> entries[i].0 != name
    ensures Lookup(entries, name).Some? ==> exists i :: 0 <= i < |entries| && entries[i] == (name, Lookup(entries, name).value)
  {
    if entries != [] && entries[0].0 != name {
      LookupNone(entries[1..], name);
      assert forall i :: 1 <= i < |entries| ==> entries[i] == entries[1..][i - 1];
    }
  }

  /** Two maps with the same entries give the same lookups. */
  lemma SameLookups(a: seq<Entry>, b: seq<Entry>, name: Name)
    requires IsMap(a) && IsMap(b) && forall e :: e in a && e.0 == name <==> e in b && e.0 == name
    ensures Lookup(a, name) == Lookup(b, name)
  {
    LookupNone(a, name);
    LookupNone(b, name);
    if Lookup(a, name).Some? {
      var i :| 0 <= i < |a| && a[i] == (name, Lookup(a, name).value);
      assert a[i] in b;
      var j :| 0 <= j < |b| && b[j] == a[i];
      LookupHas(b, j);
    }
  }

  lemma SwappedIn(entries: seq<Entry>)
    requires IsMap(entries) && |entries| > 1
    ensures var n := |entries| - 1;
            var after := [entries[n]] + entries[1..n];
            IsMap(after) && forall e :: e in after <==> e in entries && e.0 != entries[0].0
  {
    var n := |entries| - 1;
    var after := [entries[n]] + entries[1..n];
    forall i | 0 <= i < n ensures after[i] in entries && after[i].0 != entries[0].0 {
      if i > 0 { assert after[i] == entries[i]; }
    }
    forall i | 0 < i < |entries| ensures entries[i] in after {
      assert entries[i] == if i == n then after[0] else after[i];
    }
    forall e | e in entries && e.0 != entries[0].0 ensures e in after {
      var i :| 0 <= i < |entries| && entries[i] == e;
    }
  }

  lemma {:induction false} SwapRemoveHas(entries: seq<Entry>, name: Name)
    requires IsMap(entries)
    ensures IsMap(SwapRemove(entries, name))
    ensures forall e :: e in SwapRemove(entries, name) <==> e in entries && e.0 != name
  {
    if |entries| > 1 && entries[0].0 == name {
      hide IsMap;
      SwappedIn(entries);
    } else if entries != [] && entries[0].0 != name {
      SwapRemoveHas(entries[1..], name);
      assert entries == [entries[0]] + entries[1..];
      MapFront(entries[0], entries[1..], SwapRemove(entries[1..], name));
      hide IsMap;
    }
  }

  lemma LookupSwapRemove(entries: seq<Entry>, name: Name, x: Name)
    requires IsMap(entries)
    ensures Lookup(SwapRemove(entries, name), x) == if x == name then None else Lookup(entries, x)
  {
    SwapRemoveHas(entries, name);
    if x == name {
      LookupNone(SwapRemove(entries, name), x);
      forall i | 0 <= i < |SwapRemove(entries, name)| ensures SwapRemove(entries, name)[i].0 != name {
        assert SwapRemove(entries, name)[i] in SwapRemove(entries, name);
      }
    } else {
      SameLookups(SwapRemove(entries, name), entries, x);
    }
  }

  lemma MapsInside(entries: seq<Entry>, name: Name)
    requires Maps(Object(entries))
    ensures Lookup(entries, name).Some? ==> Maps(Lookup(entries, name).value)
  {
    LookupNone(entries, name);
  }

  /** What is still there to take: not the fields of the names before. */
  ghost predicate StillThere(now: seq<Entry>, entries: seq<Entry>, fields: Tree, i: nat)
    requires i <= |fields|
  {
    && IsMap(now)
    && forall x: Name :: Lookup(now, x)
         == if exists j :: 0 <= j < i && fields[j].0 == x then None else Lookup(entries, x)
  }

  lemma TakeNext(now: seq<Entry>, entries: seq<Entry>, fields: Tree, i: nat)
    requires i < |fields| && StillThere(now, entries, fields, i)
    ensures Slot(entries, fields, i)
         == if Lookup(now, fields[i].0).None? then None else CutBy(fields[i], Lookup(now, fields[i].0).value)
    ensures Lookup(now, fields[i].0).Some? ==> Lookup(now, fields[i].0) == Lookup(entries, fields[i].0)
    ensures StillThere(if Lookup(now, fields[i].0).None? then now else SwapRemove(now, fields[i].0), entries, fields, i + 1)
  {
    hide Lookup, CutBy, SwapRemove, IsMap;
    var name := fields[i].0;
    SwapRemoveHas(now, name);
    forall x ensures Lookup(SwapRemove(now, name), x) == if x == name then None else Lookup(now, x) {
      LookupSwapRemove(now, name, x);
    }
  }

  /** `take`: the selected fields moved out of a map. */
  method Take(entries: seq<Entry>, fields: Tree, out: seq<Entry>) returns (picked: seq<Entry>)
    requires Maps(Object(entries))
    ensures picked == Picked(entries, fields, 0, out)
    decreases fields, 0
  {
    picked := out;
    var now := entries;
    hide Lookup, SwapRemove, Insert;
    for i := 0 to |fields|
      invariant Picked(entries, fields, 0, out) == Picked(entries, fields, i, picked)
      invariant StillThere(now, entries, fields, i)
    {
      hide Slot, StillThere, Lookup, SwapRemove, Maps, Insert;
      TakeNext(now, entries, fields, i);
      var value := Lookup(now, fields[i].0);
      if value.Some? {
        MapsInside(entries, fields[i].0);
        now := SwapRemove(now, fields[i].0);
        var cut := TakeOne(fields[i], value.value);
        picked := Added(picked, fields[i].0, cut);
      }
    }
  }

  method TakeOne(field: (Name, Node), value: Document) returns (cut: Option<Document>)
    requires Maps(value)
    ensures cut == CutBy(field, value)
    decreases field, 0
  {
    if field.1.Whole? {
      return Some(value);
    }
    if !value.Object? {
      return None;
    }
    var inner := Take(value.fields, field.1.fields, []);
    cut := if inner == [] then None else Some(Object(inner));
  }

  // ------------------------------------------------------------------- taking out

  /** What `add` makes: at every place no name twice. */
  predicate TreeOk(node: Node) {
    node.Fields? ==>
      && (forall i, j :: 0 <= i < j < |node.fields| ==> node.fields[i].0 != node.fields[j].0)
      && forall i :: 0 <= i < |node.fields| ==> TreeOk(node.fields[i].1)
  }

  lemma {:induction false} WithoutAbsent(entries: seq<Entry>, name: Name)
    requires Lookup(entries, name).None?
    ensures Without(entries, name) == entries
  {
    if entries != [] { WithoutAbsent(entries[1..], name); }
  }

  lemma PositionFront(fields: Tree, i: nat, name: Name)
    requires i < |fields| && forall j :: 0 <= j < i ==> fields[j].0 != fields[i].0
    ensures name != fields[i].0 ==> Position(fields[..i + 1], name) == Position(fields[..i], name)
    ensures Position(fields[..i], fields[i].0).None? && Position(fields[..i + 1], fields[i].0) == Some(i)
  {
    var a, b := Position(fields[..i + 1], name), Position(fields[..i], name);
    if name != fields[i].0 && a.Some? {
      assert fields[..i + 1][a.value].0 == name;
      assert a.value < i && fields[..i][a.value].0 == name;
    }
  }

  /** One more excepted field: taken out, or what is under it. */
  lemma {:induction false} LeftMore(entries: seq<Entry>, fields: Tree, i: nat)
    requires i < |fields| && forall j :: 0 <= j < i ==> fields[j].0 != fields[i].0
    requires IsMap(entries)
    ensures var name := fields[i].0;
            var before := Left(entries, fields[..i]);
            && Lookup(before, name) == Lookup(entries, name)
            && Left(entries, fields[..i + 1])
               == match Lookup(entries, name) {
                    case None => before
                    case Some(value) =>
                      var left := Spared(fields[i], value);
                      if left.None? then Without(before, name) else Insert(before, name, left.value)
                  }
    decreases entries
  {
    hide Spared;
    if entries != [] {
      var rest := entries[1..];
      LeftMore(rest, fields, i);
      PositionFront(fields, i, entries[0].0);
      hide Position;
      if entries[0].0 == fields[i].0 {
        LookupNone(rest, fields[i].0);
        assert forall k :: 0 <= k < |rest| ==> rest[k] == entries[k + 1];
        WithoutAbsent(Left(rest, fields[..i]), fields[i].0);
      }
    }
  }

  /** `remove`: the excepted fields taken out of a map, one after another. */
  method Remove(entries: seq<Entry>, fields: Tree) returns (left: seq<Entry>)
    requires Maps(Object(entries)) && TreeOk(Fields(fields))
    ensures left == Left(entries, fields)
    decreases fields, 0
  {
    left := entries;
    LeftOfNothing(entries);
    for i := 0 to |fields|
      invariant left == Left(entries, fields[..i])
    {
      hide Left, Lookup, Without, Insert;
      LeftMore(entries, fields, i);
      MapsInside(entries, fields[i].0);
      hide Maps;
      left := RemoveOne(left, fields[i]);
    }
    assert fields[..|fields|] == fields;
  }

  lemma {:induction false} LeftOfNothing(entries: seq<Entry>)
    ensures Left(entries, []) == entries
  {
    if entries != [] { LeftOfNothing(entries[1..]); }
  }

  method RemoveOne(entries: seq<Entry>, field: (Name, Node)) returns (left: seq<Entry>)
    requires Lookup(entries, field.0).Some? ==> Maps(Lookup(entries, field.0).value)
    requires TreeOk(field.1)
    ensures left == match Lookup(entries, field.0) {
                      case None => entries
                      case Some(value) =>
                        var spared := Spared(field, value);
                        if spared.None? then Without(entries, field.0) else Insert(entries, field.0, spared.value)
                    }
    decreases field, 0
  {
    var value := Lookup(entries, field.0);
    if field.1.Whole? {
      left := Without(entries, field.0);
      if value.None? {
        WithoutAbsent(entries, field.0);
      }
    } else if value.Some? && value.value.Object? {
      var inner := Remove(value.value.fields, field.1.fields);
      left := Insert(entries, field.0, Object(inner));
    } else {
      left := entries;
      if value.Some? {
        InsertSame(entries, field.0);
      }
    }
  }

  lemma {:induction false} InsertSame(entries: seq<Entry>, name: Name)
    requires Lookup(entries, name).Some?
    ensures Insert(entries, name, Lookup(entries, name).value) == entries
  {
    if entries[0].0 != name { InsertSame(entries[1..], name); }
  }

  method TakeOut(except: Node, doc: Document) returns (after: Document)
    requires Maps(doc) && TreeOk(except)
    ensures after == TakenOut(except, doc)
  {
    if except.Fields? && except.fields == [] {
      if doc.Object? { LeftOfNothing(doc.fields); }
      return doc;
    }
    if !doc.Object? {
      return doc;
    }
    if except.Whole? {
      var id := Lookup(doc.fields, ID_FIELD);
      return Object(if id.Some? then Insert([], ID_FIELD, id.value) else []);
    }
    var left := Remove(doc.fields, except.fields);
    after := Object(left);
  }

  /** `project`, map by map. */
  method ProjectDocument(s: Selection, doc: Document) returns (after: Document)
    requires Maps(doc) && TreeOk(s.except)
    ensures after == Project(s, doc)
  {
    hide Picked, Insert, Left, TreeOk;
    if s.root.Whole? {
      after := TakeOut(s.except, doc);
      return;
    }
    if !doc.Object? {
      return doc;
    }
    var id := Lookup(doc.fields, ID_FIELD);
    var now := if id.Some? then SwapRemove(doc.fields, ID_FIELD) else doc.fields;
    ghost var fields := s.root.fields;
    WithoutIdMaps(doc.fields, now);
    var picked := Take(now, s.root.fields, if id.Some? then Insert([], ID_FIELD, id.value) else []);
    SameLookupsPick(now, Without(doc.fields, ID_FIELD), fields, 0, IdOf(doc.fields));
    PickedMaps(now, fields, 0, IdOf(doc.fields));
    after := TakeOut(s.except, Object(picked));
  }

  lemma WithoutIdMaps(entries: seq<Entry>, now: seq<Entry>)
    requires Maps(Object(entries))
    requires now == if Lookup(entries, ID_FIELD).Some? then SwapRemove(entries, ID_FIELD) else entries
    ensures Maps(Object(now)) && Maps(Object(IdOf(entries)))
    ensures forall x: Name :: Lookup(now, x) == Lookup(Without(entries, ID_FIELD), x)
  {
    hide Lookup, SwapRemove, Without;
    SwapRemoveHas(entries, ID_FIELD);
    forall e | e in now ensures e in entries {
    }
    forall i | 0 <= i < |now| ensures Maps(now[i].1) {
      assert now[i] in now;
    }
    forall x: Name ensures Lookup(now, x) == Lookup(Without(entries, ID_FIELD), x) {
      LookupWithout(entries, ID_FIELD, x);
      LookupSwapRemove(entries, ID_FIELD, x);
    }
    MapsInside(entries, ID_FIELD);
  }

  lemma {:induction false} SameLookupsPick(a: seq<Entry>, b: seq<Entry>, fields: Tree, i: nat, out: seq<Entry>)
    requires i <= |fields| && forall x: Name :: Lookup(a, x) == Lookup(b, x)
    ensures Picked(a, fields, i, out) == Picked(b, fields, i, out)
    decreases |fields| - i
  {
    if i < |fields| {
      assert Slot(a, fields, i) == Slot(b, fields, i);
      SameLookupsPick(a, b, fields, i + 1, Added(out, fields[i].0, Slot(a, fields, i)));
    }
  }

  lemma {:induction false} InsertHas(entries: seq<Entry>, name: Name, value: Document)
    requires IsMap(entries)
    ensures IsMap(Insert(entries, name, value))
    ensures forall e <- Insert(entries, name, value) :: e == (name, value) || (e in entries && e.0 != name)
    ensures forall e <- entries :: e.0 != name ==> e in Insert(entries, name, value)
  {
    if entries != [] {
      var rest := entries[1..];
      assert entries == [entries[0]] + rest;
      if entries[0].0 != name {
        InsertHas(rest, name, value);
        InsertedFront(entries[0], rest, Insert(rest, name, value), name);
      } else {
        InsertedFront((name, value), rest, rest, name);
        assert forall e <- rest :: e.0 != name;
      }
    }
  }

  lemma InsertedFront(head: Entry, rest: seq<Entry>, after: seq<Entry>, name: Name)
    requires IsMap(after) && forall e <- after :: e.0 != head.0
    ensures IsMap([head] + after)
  {
    var all := [head] + after;
    forall i, j | 0 <= i < j < |all| ensures all[i].0 != all[j].0 {
      assert all[j] == after[j - 1] && after[j - 1] in after;
    }
  }

  lemma InsertMaps(entries: seq<Entry>, name: Name, value: Document)
    requires Maps(Object(entries)) && Maps(value)
    ensures Maps(Object(Insert(entries, name, value)))
  {
    hide Insert, IsMap;
    InsertHas(entries, name, value);
    var after := Insert(entries, name, value);
    forall i | 0 <= i < |after| ensures Maps(after[i].1) {
      assert after[i] in after;
    }
  }

  lemma {:induction false} CutMaps(field: (Name, Node), value: Document)
    requires Maps(value)
    ensures CutBy(field, value).Some? ==> Maps(CutBy(field, value).value)
    decreases field, 0
  {
    if field.1.Fields? && value.Object? {
      PickedMaps(value.fields, field.1.fields, 0, []);
    }
  }

  lemma {:induction false} PickedMaps(entries: seq<Entry>, fields: Tree, i: nat, out: seq<Entry>)
    requires i <= |fields| && Maps(Object(entries)) && Maps(Object(out))
    ensures Maps(Object(Picked(entries, fields, i, out)))
    decreases fields, 1, |fields| - i
  {
    hide Maps, Lookup, Insert;
    if i < |fields| {
      var value := Lookup(entries, fields[i].0);
      MapsInside(entries, fields[i].0);
      if value.Some? { CutMaps(fields[i], value.value); }
      var slot := Slot(entries, fields, i);
      if slot.Some? { InsertMaps(out, fields[i].0, slot.value); }
      PickedMaps(entries, fields, i + 1, Added(out, fields[i].0, slot));
    }
  }

  /** What is decoded is made of maps, whatever the bytes. */
  lemma {:induction false} DecodedMaps(bytes: seq<byte>, levels: nat)
    ensures Decode(bytes, levels).Good? ==> Maps(Decode(bytes, levels).value)
    decreases levels, 0, 0
  {
    hide Decode, DecodeItems, DecodeEntries;
    DecodeOpens(bytes, levels);
    if levels > 0 && bytes != [] {
      var items := TakeNumber(bytes[1..], 4, AnArrayLength);
      var entries := TakeNumber(bytes[1..], 4, AnObjectLength);
      if items.Good? { ItemsMaps(items.rest, levels - 1, items.value, []); }
      if entries.Good? { EntriesMaps(entries.rest, levels - 1, entries.value, []); }
    }
  }

  lemma {:induction false} ItemsMaps(bytes: seq<byte>, levels: nat, count: nat, items: seq<Document>)
    requires Maps(Array(items))
    ensures var r := DecodeItems(bytes, levels, count, items); r.Good? ==> Maps(Array(r.value))
    decreases levels, 1, count
  {
    hide Decode, DecodeItems;
    if count == 0 {
      ItemsDone(bytes, levels, items);
    } else {
      ItemsStep(bytes, levels, count, items);
      DecodedMaps(bytes, levels);
      var item := Decode(bytes, levels);
      if item.Good? { ItemsMaps(item.rest, levels, count - 1, items + [item.value]); }
    }
  }

  lemma {:induction false} EntriesMaps(bytes: seq<byte>, levels: nat, count: nat, entries: seq<Entry>)
    requires Maps(Object(entries))
    ensures var r := DecodeEntries(bytes, levels, count, entries); r.Good? ==> Maps(Object(r.value))
    decreases levels, 1, count
  {
    hide Decode, DecodeEntries, TakeStr, Insert, Maps;
    if count == 0 {
      EntriesDone(bytes, levels, entries);
    } else {
      EntriesStep(bytes, levels, count, entries);
      var key := TakeStr(bytes, AKey);
      if key.Good? {
        DecodedMaps(key.rest, levels);
        var value := Decode(key.rest, levels);
        if value.Good? {
          InsertMaps(entries, key.value, value.value);
          EntriesMaps(value.rest, levels, count - 1, Insert(entries, key.value, value.value));
        }
      }
    }
  }

  // ------------------------------------------------------------------ paths added

  /** A step of a path: a field's name, and whether it reaches into an array. */
  datatype Step = Step(name: Name, fansOut: bool)

  /** `add`: a path added to the tree at `node`; no steps, the value itself. */
  function Add(node: Node, path: seq<Step>): (after: Node) {
    if path == [] then Whole else AddAt(node, path, true)
  }

  function AddAt(node: Node, path: seq<Step>, top: bool): (after: Node)
    requires path != []
    decreases |path|
  {
    if node.Whole? || (top && path[0].name == ID_FIELD) then node
    else
      var at := Position(node.fields, path[0].name);
      var fields := if at.Some? then node.fields else node.fields + [(path[0].name, Fields([]))];
      var i := if at.Some? then at.value else |node.fields|;
      var inner := if path[0].fansOut || |path| == 1 then Whole else AddAt(fields[i].1, path[1..], false);
      Fields(fields[i := (path[0].name, inner)])
  }

  /** Adding a path keeps names apart, and `_id` out at the top. */
  lemma {:induction false} AddKeepsTree(node: Node, path: seq<Step>, top: bool)
    requires TreeOk(node) && path != []
    ensures TreeOk(AddAt(node, path, top))
    ensures top && SparesId(node) ==> SparesId(AddAt(node, path, top))
    decreases |path|
  {
    if !node.Whole? && !(top && path[0].name == ID_FIELD) {
      var at := Position(node.fields, path[0].name);
      var fields := if at.Some? then node.fields else node.fields + [(path[0].name, Fields([]))];
      var i := if at.Some? then at.value else |node.fields|;
      if !(path[0].fansOut || |path| == 1) {
        AddKeepsTree(fields[i].1, path[1..], false);
      }
    }
  }
}
