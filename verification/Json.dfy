/** Tagged JSON (`src/json.rs`): documents as JSON values and back, without losing
    anything. JSON text is left to its library: a value is a tree. */
module Json {
  import opened Values
  import opened Codec
  import opened Calendar
  import opened DateText
  import B = Base64

  /** A JSON value; an object's names are distinct and in order. `JBig` is a whole
      number past what an `i64` holds. */
  datatype Json =
    | JNull
    | JBool(value: bool)
    | JInt(number: i64)
    | JBig(big: nat)
    | JFloat(bits: u64)
    | JString(text: seq<byte>)
    | JArray(items: seq<Json>)
    | JObject(fields: seq<(Name, Json)>)

  type Field = (Name, Json)

  const ID_TAG: Name := [36, 105, 100] // $id
  const BINARY_TAG: Name := [36, 98, 105, 110, 97, 114, 121] // $binary
  const FLOAT_TAG: Name := [36, 102, 108, 111, 97, 116] // $float
  const DATE_TAG: Name := [36, 100, 97, 116, 101] // $date
  const OBJECT_TAG: Name := [36, 111, 98, 106, 101, 99, 116] // $object
  const VALUE_TAG: Name := [36, 118, 97, 108, 117, 101] // $value

  predicate IsTag(name: Name) {
    || name == ID_TAG || name == BINARY_TAG || name == FLOAT_TAG || name == DATE_TAG
    || name == OBJECT_TAG || name == VALUE_TAG
  }

  /** The tags are told apart. */
  lemma TagsDiffer()
    ensures ID_TAG[1] == 105 && BINARY_TAG[1] == 98 && FLOAT_TAG[1] == 102 && DATE_TAG[1] == 100
    ensures OBJECT_TAG[1] == 111 && VALUE_TAG[1] == 118 && ID_FIELD[0] == 95
    ensures IsTag(ID_TAG) && IsTag(BINARY_TAG) && IsTag(FLOAT_TAG) && IsTag(DATE_TAG) && IsTag(OBJECT_TAG)
    ensures !IsTag(ID_FIELD)
  {
  }

  /** The names an object is told apart by, as text. */
  lemma TagsAre()
    ensures ID_FIELD == AsBytes("_id") && ID_TAG == AsBytes("$id") && BINARY_TAG == AsBytes("$binary")
    ensures FLOAT_TAG == AsBytes("$float") && DATE_TAG == AsBytes("$date")
    ensures OBJECT_TAG == AsBytes("$object") && VALUE_TAG == AsBytes("$value")
    ensures NAN == AsBytes("NaN") && PLUS_INFINITY == AsBytes("Infinity") && MINUS_INFINITY == AsBytes("-Infinity")
  {
  }

  /** Which tags a reader knows: `$date` came with version 2. */
  predicate Knows(dates: bool, name: Name) {
    IsTag(name) && (dates || name != DATE_TAG)
  }

  predicate LooksLikeTag(fields: seq<Field>, dates: bool) {
    |fields| == 1 && Knows(dates, fields[0].0)
  }

  /** How ids are written and read as text: a UUID's own. */
  datatype Ids = Ids(print_: DocId -> seq<byte>, parse: seq<byte> -> Option<DocId>)

  ghost predicate IdsOk(ids: Ids) {
    forall id: DocId :: |id| == 16 ==> ids.parse(ids.print_(id)) == Some(id)
  }

  function AsBytes(text: string): (bytes: seq<byte>) {
    seq(|text|, i requires 0 <= i < |text| => if (text[i] as int) < 256 then text[i] as int else 63)
  }

  function AsText(bytes: seq<byte>): (text: string) {
    seq(|bytes|, i requires 0 <= i < |bytes| => bytes[i] as char)
  }

  const NAN: Name := [78, 97, 78] // NaN
  const PLUS_INFINITY: Name := [73, 110, 102, 105, 110, 105, 116, 121] // Infinity
  const MINUS_INFINITY: Name := [45] + PLUS_INFINITY

  const NAN_BITS: u64 := 0x7FF8_0000_0000_0000
  const INFINITY_BITS: u64 := 0x7FF0_0000_0000_0000
  const NEGATIVE_INFINITY_BITS: u64 := 0xFFF0_0000_0000_0000

  predicate IsFinite(bits: u64) {
    ExponentField(bits) != 0x7FF
  }

  predicate IsNaN(bits: u64) {
    !IsFinite(bits) && FractionField(bits) != 0
  }

  function NonFiniteName(bits: u64): (name: Name) {
    if IsNaN(bits) then NAN else if NegativeBit(bits) then MINUS_INFINITY else PLUS_INFINITY
  }

  function Tagged(tag: Name, value: Json): (json: Json) {
    JObject([(tag, value)])
  }

  // ---------------------------------------------------------------------- writing

  /** `to_json`. */
  function ToJson(ids: Ids, doc: Document): (json: Json)
    decreases doc, 0
  {
    match doc
    case Null => JNull
    case Bool(b) => JBool(b)
    case Int(n) => JInt(n)
    case Float(bits) => if IsFinite(bits) then JFloat(bits) else Tagged(FLOAT_TAG, JString(NonFiniteName(bits)))
    case Str(s) => JString(s)
    case Binary(data) => Tagged(BINARY_TAG, JString(B.Encode(data)))
    case Id(id) => Tagged(ID_TAG, JString(ids.print_(id)))
    case DateTime(secs, nanos) => Tagged(DATE_TAG, JString(AsBytes(Display(Time(secs, nanos)))))
    case Array(items) => JArray(ItemsToJson(ids, items))
    case Object(fields) =>
      var written := FieldsToJson(ids, fields);
      if LooksLikeTag(written, true) then Tagged(OBJECT_TAG, JObject(written)) else JObject(written)
  }

  function ItemsToJson(ids: Ids, items: seq<Document>): (json: seq<Json>)
    ensures |json| == |items|
    decreases items, 0
  {
    if items == [] then [] else [ToJson(ids, items[0])] + ItemsToJson(ids, items[1..])
  }

  function FieldsToJson(ids: Ids, fields: seq<Entry>): (json: seq<Field>)
    ensures |json| == |fields| && forall i :: 0 <= i < |fields| ==> json[i].0 == fields[i].0
    decreases fields, 0
  {
    if fields == [] then [] else [FieldToJson(ids, fields[0])] + FieldsToJson(ids, fields[1..])
  }

  function FieldToJson(ids: Ids, field: Entry): (json: Field)
    ensures json.0 == field.0
    decreases field, 0
  {
    (field.0, ToJson(ids, field.1))
  }

  // ---------------------------------------------------------------------- reading

  /** `read`; nothing where it refuses. */
  function Read(ids: Ids, json: Json, dates: bool): (doc: Option<Document>)
    decreases json, 1
  {
    match json
    case JNull => Some(Null)
    case JBool(b) => Some(Bool(b))
    case JInt(n) => Some(Int(n))
    case JBig(_) => None
    case JFloat(bits) => Some(Float(bits))
    case JString(s) => Some(Str(s))
    case JArray(items) =>
      var docs := ReadItems(ids, items, dates);
      if docs.None? then None else Some(Array(docs.value))
    case JObject(fields) =>
      if LooksLikeTag(fields, dates) then FromTag(ids, fields[0], dates) else AsDocument(ReadFields(ids, fields, dates))
  }

  function AsDocument(fields: Option<seq<Entry>>): (doc: Option<Document>) {
    if fields.None? then None else Some(Object(fields.value))
  }

  function ReadItems(ids: Ids, items: seq<Json>, dates: bool): (docs: Option<seq<Document>>)
    decreases items, 0
  {
    if items == [] then Some([])
    else
      var first, rest := Read(ids, items[0], dates), ReadItems(ids, items[1..], dates);
      if first.None? || rest.None? then None else Some([first.value] + rest.value)
  }

  function ReadFields(ids: Ids, fields: seq<Field>, dates: bool): (entries: Option<seq<Entry>>)
    decreases fields, 0
  {
    if fields == [] then Some([])
    else
      var first, rest := ReadField(ids, fields[0], dates), ReadFields(ids, fields[1..], dates);
      if first.None? || rest.None? then None else Some([(fields[0].0, first.value)] + rest.value)
  }

  function ReadField(ids: Ids, field: Field, dates: bool): (doc: Option<Document>)
    decreases field, 0
  {
    Read(ids, field.1, dates)
  }

  /** `from_tag`. */
  function FromTag(ids: Ids, field: Field, dates: bool): (doc: Option<Document>)
    decreases field, 0
  {
    var (tag, value) := (field.0, field.1);
    if tag == OBJECT_TAG then
      if value.JObject? then AsDocument(ReadFields(ids, value.fields, dates)) else None
    else if !value.JString? then None
    else if tag == ID_TAG then
      var id := ids.parse(value.text);
      if id.None? then None else Some(Id(id.value))
    else if tag == BINARY_TAG then
      var data := B.Decode(value.text);
      if data.None? then None else Some(Binary(data.value))
    else if tag == FLOAT_TAG then
      if value.text == NAN then Some(Float(NAN_BITS))
      else if value.text == PLUS_INFINITY then Some(Float(INFINITY_BITS))
      else if value.text == MINUS_INFINITY then Some(Float(NEGATIVE_INFINITY_BITS))
      else None
    else if tag == DATE_TAG then
      var time := Parse(AsText(value.text));
      if time.None? then None else Some(DateTime(time.value.secs, time.value.nanos))
    else None
  }

  // ------------------------------------------------------------------- round trips

  /** What a document comes back as: but for what a NaN carries besides being one, as
      it was; where `$date` is no tag, a date-time is an object with that name. */
  function Normal(doc: Document, dates: bool): (after: Document)
    decreases doc, 0
  {
    match doc
    case Float(bits) => if IsNaN(bits) then Float(NAN_BITS) else doc
    case DateTime(secs, nanos) =>
      if dates then doc else Object([(DATE_TAG, Str(AsBytes(Display(Time(secs, nanos)))))])
    case Array(items) => Array(NormalItems(items, dates))
    case Object(fields) => Object(NormalFields(fields, dates))
    case _ => doc
  }

  function NormalItems(items: seq<Document>, dates: bool): (after: seq<Document>)
    decreases items, 0
  {
    if items == [] then [] else [Normal(items[0], dates)] + NormalItems(items[1..], dates)
  }

  function NormalFields(fields: seq<Entry>, dates: bool): (after: seq<Entry>)
    decreases fields, 0
  {
    if fields == [] then [] else [NormalField(fields[0], dates)] + NormalFields(fields[1..], dates)
  }

  function NormalField(field: Entry, dates: bool): (after: Entry)
    decreases field, 0
  {
    (field.0, Normal(field.1, dates))
  }

  lemma NonFiniteIs(bits: u64)
    requires !IsFinite(bits) && !IsNaN(bits)
    ensures bits == if NegativeBit(bits) then NEGATIVE_INFINITY_BITS else INFINITY_BITS
  {
  }

  lemma FloatBack(ids: Ids, bits: u64, dates: bool)
    requires !IsFinite(bits)
    ensures Read(ids, ToJson(ids, Float(bits)), dates) == Some(Normal(Float(bits), dates))
  {
    TagsDiffer();
    assert NAN[0] == 78 && PLUS_INFINITY[0] == 73 && MINUS_INFINITY[0] == 45;
    if !IsNaN(bits) { NonFiniteIs(bits); }
    hide IsFinite, IsNaN, NegativeBit;
  }

  predicate Ascii(text: string) {
    forall i :: 0 <= i < |text| ==> (text[i] as int) < 128
  }

  lemma TextBack(text: string)
    requires Ascii(text)
    ensures AsText(AsBytes(text)) == text
  {
  }

  lemma AsciiJoins(a: string, b: string)
    requires Ascii(a) && Ascii(b)
    ensures Ascii(a + b)
  {
  }

  lemma DigitsAreAscii(text: string)
    requires AllDigits(text)
    ensures Ascii(text)
  {
  }

  lemma DisplayIsAscii(t: Time)
    requires IsTime(t)
    ensures Ascii(Display(t))
  {
    var day, second := t.secs / 86_400, t.secs % 86_400;
    DateIsPositive(day);
    var date := CivilFromDays(day);
    hide CivilFromDays;
    DateChars(date);
    ClockChars(second);
    assert Ascii(DateTextOf(date)) && Ascii(Clock(second)) && Ascii("T") && Ascii("Z");
    FractionIsAscii(t.nanos);
    hide DateTextOf, Clock, Fraction, Ascii, AllDateChars;
    AsciiJoins(DateTextOf(date), "T");
    AsciiJoins(DateTextOf(date) + "T", Clock(second));
    AsciiJoins(DateTextOf(date) + "T" + Clock(second), Fraction(t.nanos));
    AsciiJoins(DateTextOf(date) + "T" + Clock(second) + Fraction(t.nanos), "Z");
  }

  lemma FractionIsAscii(nanos: nat)
    requires nanos < NANOS
    ensures Ascii(Fraction(nanos))
  {
    if nanos != 0 {
      FractionBack(nanos);
      hide Padded, TrimZeros, ParseFraction;
      DigitsAreAscii(TrimZeros(Padded(nanos, 9)));
    }
  }

  lemma DateTimeBack(ids: Ids, secs: i64, nanos: nat)
    requires nanos < NANOS
    ensures Read(ids, ToJson(ids, DateTime(secs, nanos)), true) == Some(DateTime(secs, nanos))
  {
    hide Display, Parse, AsText, AsBytes, Ascii;
    var t := Time(secs, nanos);
    DisplayIsAscii(t);
    DisplayParses(t);
    TextBack(Display(t));
    DateTag(ids, AsBytes(Display(t)));
  }

  /** Version 1 has no `$date`: the name is one as any other. */
  lemma DateIsAName(ids: Ids, value: Json)
    ensures Read(ids, Tagged(DATE_TAG, value), false)
         == var doc := Read(ids, value, false); if doc.None? then None else Some(Object([(DATE_TAG, doc.value)]))
  {
    var fields := [(DATE_TAG, value)];
    assert Read(ids, JObject(fields), false) == AsDocument(ReadFields(ids, fields, false));
    OneField(ids, DATE_TAG, value);
    hide Read, ReadFields;
  }

  lemma OneField(ids: Ids, name: Name, value: Json)
    ensures ReadFields(ids, [(name, value)], false)
         == var doc := Read(ids, value, false); if doc.None? then None else Some([(name, doc.value)])
  {
    var fields := [(name, value)];
    assert fields[1..] == [] && ReadFields(ids, [], false) == Some([]);
    var doc := ReadField(ids, fields[0], false);
    assert doc == Read(ids, value, false);
    hide Read;
    if doc.Some? { assert [(name, doc.value)] + [] == [(name, doc.value)]; }
  }

  lemma DateTag(ids: Ids, text: seq<byte>)
    ensures Read(ids, Tagged(DATE_TAG, JString(text)), true)
         == var time := Parse(AsText(text)); if time.None? then None else Some(DateTime(time.value.secs, time.value.nanos))
  {
    TagsDiffer();
    hide Parse, AsText;
  }

  /** What is written is read back, whatever the document. */
  lemma {:induction false} ReadBack(ids: Ids, doc: Document, dates: bool)
    requires IdsOk(ids) && Writable(doc)
    ensures Read(ids, ToJson(ids, doc), dates) == Some(Normal(doc, dates))
    decreases doc, 1
  {
    match doc
    case Float(bits) => if !IsFinite(bits) { FloatBack(ids, bits, dates); }
    case Binary(data) => BinaryBack(ids, data, dates);
    case Id(id) => IdBack(ids, id, dates);
    case DateTime(secs, nanos) =>
      if dates { DateTimeBack(ids, secs, nanos); } else { DateAsObject(ids, secs, nanos); }
    case Array(items) => ReadItemsBack(ids, items, dates);
    case Object(fields) =>
      ReadFieldsBack(ids, fields, dates);
      ObjectBack(ids, fields, dates);
    case _ =>
  }

  lemma DateAsObject(ids: Ids, secs: i64, nanos: nat)
    ensures Read(ids, ToJson(ids, DateTime(secs, nanos)), false) == Some(Normal(DateTime(secs, nanos), false))
  {
    hide Display, AsBytes;
    DateIsAName(ids, JString(AsBytes(Display(Time(secs, nanos)))));
  }

  lemma BinaryBack(ids: Ids, data: seq<byte>, dates: bool)
    ensures Read(ids, ToJson(ids, Binary(data)), dates) == Some(Binary(data))
  {
    B.RoundTrip(data);
    TagsDiffer();
    hide B.Decode, B.Encode;
  }

  lemma IdBack(ids: Ids, id: DocId, dates: bool)
    requires IdsOk(ids) && |id| == 16
    ensures Read(ids, ToJson(ids, Id(id)), dates) == Some(Id(id))
  {
    TagsDiffer();
  }

  lemma ObjectBack(ids: Ids, fields: seq<Entry>, dates: bool)
    requires ReadFields(ids, FieldsToJson(ids, fields), dates) == Some(NormalFields(fields, dates))
    ensures Read(ids, ToJson(ids, Object(fields)), dates) == Some(Normal(Object(fields), dates))
  {
    TagsDiffer();
    hide ReadFields, FieldsToJson, NormalFields;
  }

  lemma {:induction false} ReadItemsBack(ids: Ids, items: seq<Document>, dates: bool)
    requires IdsOk(ids) && forall i :: 0 <= i < |items| ==> Writable(items[i])
    ensures ReadItems(ids, ItemsToJson(ids, items), dates) == Some(NormalItems(items, dates))
    decreases items, 1
  {
    hide Read, ToJson, Normal, Writable;
    if items != [] {
      ReadBack(ids, items[0], dates);
      ReadItemsBack(ids, items[1..], dates);
      assert ItemsToJson(ids, items)[1..] == ItemsToJson(ids, items[1..]);
    }
  }

  lemma {:induction false} ReadFieldsBack(ids: Ids, fields: seq<Entry>, dates: bool)
    requires IdsOk(ids) && forall i :: 0 <= i < |fields| ==> Writable(fields[i].1)
    ensures ReadFields(ids, FieldsToJson(ids, fields), dates) == Some(NormalFields(fields, dates))
    decreases fields, 1
  {
    hide Read, ToJson, Normal, Writable;
    if fields != [] {
      ReadFieldBack(ids, fields[0], dates);
      ReadFieldsBack(ids, fields[1..], dates);
      assert FieldsToJson(ids, fields)[1..] == FieldsToJson(ids, fields[1..]);
    }
  }

  lemma {:induction false} ReadFieldBack(ids: Ids, field: Entry, dates: bool)
    requires IdsOk(ids) && Writable(field.1)
    ensures ReadField(ids, FieldToJson(ids, field), dates) == Some(NormalField(field, dates).1)
    decreases field, 1
  {
    ReadBack(ids, field.1, dates);
  }

  // ----------------------------------------------------------- what a write accepts

  /** An object whose only name besides `_id` is a tag costs two levels. */
  function Cost(fields: seq<Entry>): (levels: nat)
    ensures 1 <= levels <= 2
  {
    var names := seq(|fields|, i requires 0 <= i < |fields| => (fields[i].0, JNull));
    var others := Others(names);
    if |others| == 1 && IsTag(others[0]) then 2 else 1
  }

  /** What `nests_too_deep` lets through. */
  predicate Within(doc: Document, levels: nat)
    decreases doc
  {
    match doc
    case Array(items) => levels >= 1 && forall i :: 0 <= i < |items| ==> Within(items[i], levels - 1)
    case Object(fields) =>
      var cost := Cost(fields);
      levels >= cost && forall i :: 0 <= i < |fields| ==> Within(fields[i].1, levels - cost)
    case _ => true
  }

  lemma {:induction false} NestsMore(doc: Document, levels: nat, more: nat)
    requires Nests(doc, levels) && levels <= more
    ensures Nests(doc, more)
    decreases doc
  {
    match doc
    case Array(items) =>
      forall i | 0 <= i < |items| ensures Nests(items[i], more - 1) { NestsMore(items[i], levels - 1, more - 1); }
    case Object(fields) =>
      forall i | 0 <= i < |fields| ensures Nests(fields[i].1, more - 1) { NestsMore(fields[i].1, levels - 1, more - 1); }
    case _ =>
  }

  /** A document a write accepts nests no deeper than a read decodes. */
  lemma {:induction false} AcceptedIsDecoded(doc: Document, levels: nat)
    requires Within(doc, levels)
    ensures Nests(doc, levels)
    decreases doc
  {
    match doc
    case Array(items) =>
      forall i | 0 <= i < |items| ensures Nests(items[i], levels - 1) { AcceptedIsDecoded(items[i], levels - 1); }
    case Object(fields) =>
      var cost := Cost(fields);
      forall i | 0 <= i < |fields| ensures Nests(fields[i].1, levels - 1) {
        AcceptedIsDecoded(fields[i].1, levels - cost);
        NestsMore(fields[i].1, levels - cost, levels - 1);
      }
    case _ =>
  }

  // --------------------------------------------------------------- a document's line

  /** The names besides `_id`. */
  function Others(fields: seq<Field>): (names: seq<Name>) {
    if fields == [] then []
    else if fields[0].0 == ID_FIELD then Others(fields[1..])
    else [fields[0].0] + Others(fields[1..])
  }

  function Get(fields: seq<Field>, name: Name): (value: Option<Json>) {
    if fields == [] then None else if fields[0].0 == name then Some(fields[0].1) else Get(fields[1..], name)
  }

  /** `document_line`: an object as itself, or, if it could be taken for a wrapper,
      inside `$object`; any other document inside `$value`. */
  function DocumentLine(ids: Ids, id: DocId, doc: Document): (line: seq<Field>) {
    var idField := (ID_FIELD, ToJson(ids, Id(id)));
    if doc.Object? then
      var written := FieldsToJson(ids, doc.fields);
      var others := Others(written);
      if |others| == 1 && IsTag(others[0]) then [idField, (OBJECT_TAG, JObject(written))] else written
    else [idField, (VALUE_TAG, ToJson(ids, doc))]
  }

  datatype Line = Line(id: Option<DocId>, doc: Document)

  /** `parse_document_line`. */
  function ParseDocumentLine(ids: Ids, fields: seq<Field>, dates: bool): (line: Option<Line>) {
    var given := Get(fields, ID_FIELD);
    var id := if given.None? then None else Read(ids, given.value, dates);
    if given.Some? && (id.None? || !id.value.Id?) then None
    else
      var others := Others(fields);
      var wrapped := if |others| == 1 && (others[0] == VALUE_TAG || others[0] == OBJECT_TAG) then Get(fields, others[0]) else None;
      var doc :=
        if wrapped.None? then AsDocument(ReadFields(ids, fields, dates))
        else if others[0] == VALUE_TAG then Read(ids, wrapped.value, dates)
        else FromTag(ids, (OBJECT_TAG, wrapped.value), dates);
      if doc.None? then None else Some(Line(if given.None? then None else Some(id.value.id), doc.value))
  }

  /** A document as it is stored: an object has its id first. */
  predicate IsStored(doc: Document, id: DocId) {
    |id| == 16 && Writable(doc) && (doc.Object? ==> doc.fields != [] && doc.fields[0] == (ID_FIELD, Id(id)))
  }

  // ------------------------------------------------------------- how deep a line nests

  /** Whether at most `levels` arrays and objects open inside each other. */
  predicate JsonNests(json: Json, levels: nat)
    decreases json
  {
    match json
    case JArray(items) => levels >= 1 && forall i :: 0 <= i < |items| ==> JsonNests(items[i], levels - 1)
    case JObject(fields) => levels >= 1 && forall i :: 0 <= i < |fields| ==> JsonNests(fields[i].1, levels - 1)
    case _ => true
  }

  lemma {:induction false} JsonNestsMore(json: Json, levels: nat, more: nat)
    requires JsonNests(json, levels) && levels <= more
    ensures JsonNests(json, more)
    decreases json
  {
    match json
    case JArray(items) =>
      forall i | 0 <= i < |items| ensures JsonNests(items[i], more - 1) { JsonNestsMore(items[i], levels - 1, more - 1); }
    case JObject(fields) =>
      forall i | 0 <= i < |fields| ensures JsonNests(fields[i].1, more - 1) {
        JsonNestsMore(fields[i].1, levels - 1, more - 1);
      }
    case _ =>
  }

  /** An accepted document as JSON is one level deeper at most, a tag at a leaf: what
      `$object` adds has been counted. */
  lemma {:induction false} AcceptedAsJson(ids: Ids, doc: Document, levels: nat)
    requires Within(doc, levels)
    ensures JsonNests(ToJson(ids, doc), levels + 1)
    decreases doc
  {
    match doc
    case Array(items) =>
      forall i | 0 <= i < |items| ensures JsonNests(ToJson(ids, items[i]), levels) {
        AcceptedAsJson(ids, items[i], levels - 1);
      }
      ItemsNest(ids, items, levels);
    case Object(fields) =>
      FieldsOfAccepted(ids, fields, levels);
      ObjectNests(ids, fields, levels);
    case _ => LeafNests(ids, doc, levels);
  }

  lemma ObjectNests(ids: Ids, fields: seq<Entry>, levels: nat)
    requires Cost(fields) <= levels && JsonNests(JObject(FieldsToJson(ids, fields)), levels - Cost(fields) + 2)
    ensures JsonNests(ToJson(ids, Object(fields)), levels + 1)
  {
    var written := FieldsToJson(ids, fields);
    CostIs(ids, fields);
    assert ToJson(ids, Object(fields))
        == if LooksLikeTag(written, true) then Tagged(OBJECT_TAG, JObject(written)) else JObject(written);
    hide ToJson, FieldsToJson, Cost, JsonNests, IsTag, Others;
    if LooksLikeTag(written, true) {
      OnlyTag(written);
      TaggedNests(OBJECT_TAG, JObject(written), levels);
    } else {
      JsonNestsMore(JObject(written), levels - Cost(fields) + 2, levels + 1);
    }
  }

  lemma LeafNests(ids: Ids, doc: Document, levels: nat)
    requires !doc.Array? && !doc.Object?
    ensures JsonNests(ToJson(ids, doc), levels + 1)
  {
    hide IsFinite, NonFiniteName;
  }

  lemma TaggedNests(tag: Name, json: Json, levels: nat)
    requires JsonNests(json, levels)
    ensures JsonNests(Tagged(tag, json), levels + 1)
  {
  }

  /** The fields of an accepted object, written. */
  lemma FieldsOfAccepted(ids: Ids, fields: seq<Entry>, levels: nat)
    requires Within(Object(fields), levels)
    ensures Cost(fields) <= levels && JsonNests(JObject(FieldsToJson(ids, fields)), levels - Cost(fields) + 2)
    decreases fields
  {
    var left := levels - Cost(fields);
    hide Cost;
    forall i | 0 <= i < |fields| ensures JsonNests(ToJson(ids, fields[i].1), left + 1) {
      assert Within(Object(fields).fields[i].1, left);
      AcceptedAsJson(ids, fields[i].1, left);
    }
    FieldsNest(ids, fields, left + 1);
  }

  lemma {:induction false} ItemsNest(ids: Ids, items: seq<Document>, levels: nat)
    requires forall i :: 0 <= i < |items| ==> JsonNests(ToJson(ids, items[i]), levels)
    ensures forall i :: 0 <= i < |items| ==> JsonNests(ItemsToJson(ids, items)[i], levels)
  {
    hide ToJson, JsonNests;
    if items != [] { ItemsNest(ids, items[1..], levels); }
  }

  lemma {:induction false} FieldsNest(ids: Ids, fields: seq<Entry>, levels: nat)
    requires forall i :: 0 <= i < |fields| ==> JsonNests(ToJson(ids, fields[i].1), levels)
    ensures JsonNests(JObject(FieldsToJson(ids, fields)), levels + 1)
    decreases |fields|
  {
    hide JsonNests;
    if fields != [] {
      FieldsNest(ids, fields[1..], levels);
      var (all, rest) := (FieldsToJson(ids, fields), FieldsToJson(ids, fields[1..]));
      FirstField(ids, fields);
      OneFieldMore((fields[0].0, ToJson(ids, fields[0].1)), rest, levels);
    } else {
      NoFields(levels);
    }
  }

  lemma FirstField(ids: Ids, fields: seq<Entry>)
    requires fields != []
    ensures FieldsToJson(ids, fields) == [(fields[0].0, ToJson(ids, fields[0].1))] + FieldsToJson(ids, fields[1..])
  {
  }

  lemma NoFields(levels: nat)
    ensures JsonNests(JObject([]), levels + 1)
  {
  }

  lemma OneFieldMore(field: Field, rest: seq<Field>, levels: nat)
    requires JsonNests(field.1, levels) && JsonNests(JObject(rest), levels + 1)
    ensures JsonNests(JObject([field] + rest), levels + 1)
  {
    var (all, before) := (JObject([field] + rest), JObject(rest));
    forall i | 0 <= i < |all.fields| ensures JsonNests(all.fields[i].1, levels) {
      if i > 0 { assert JsonNests(before.fields[i - 1].1, levels); }
    }
  }

  /** The names written are the names: so an object that looks like a tag costs two. */
  lemma CostIs(ids: Ids, fields: seq<Entry>)
    ensures var others := Others(FieldsToJson(ids, fields));
            Cost(fields) == if |others| == 1 && IsTag(others[0]) then 2 else 1
  {
    hide IsTag;
    var names := seq(|fields|, i requires 0 <= i < |fields| => (fields[i].0, JNull));
    SameOthers(names, FieldsToJson(ids, fields));
  }

  lemma {:induction false} SameOthers(a: seq<Field>, b: seq<Field>)
    requires |a| == |b| && forall i :: 0 <= i < |a| ==> a[i].0 == b[i].0
    ensures Others(a) == Others(b)
  {
    if a != [] { SameOthers(a[1..], b[1..]); }
  }

  lemma OnlyTag(written: seq<Field>)
    requires LooksLikeTag(written, true)
    ensures Others(written) == [written[0].0] && IsTag(written[0].0)
  {
    TagsDiffer();
    assert written[1..] == [];
  }

  /** So an export stays inside what an import reads: a document's line nests one level
      deeper than was accepted at most; that of a document that is no object two. */
  lemma AcceptedAsLine(ids: Ids, id: DocId, doc: Document, levels: nat)
    requires Within(doc, levels)
    ensures JsonNests(JObject(DocumentLine(ids, id, doc)), if doc.Object? then levels + 1 else levels + 2)
  {
    LeafNests(ids, Id(id), 0);
    if doc.Object? {
      FieldsOfAccepted(ids, doc.fields, levels);
      ObjectLineNests(ids, id, doc.fields, levels);
    } else {
      AcceptedAsJson(ids, doc, levels);
      hide ToJson, JsonNests;
      JsonNestsMore(ToJson(ids, Id(id)), 1, levels + 1);
      PairNests((ID_FIELD, ToJson(ids, Id(id))), (VALUE_TAG, ToJson(ids, doc)), levels + 1);
    }
  }

  lemma ObjectLineNests(ids: Ids, id: DocId, fields: seq<Entry>, levels: nat)
    requires Cost(fields) <= levels && JsonNests(JObject(FieldsToJson(ids, fields)), levels - Cost(fields) + 2)
    requires JsonNests(ToJson(ids, Id(id)), 1)
    ensures JsonNests(JObject(DocumentLine(ids, id, Object(fields))), levels + 1)
  {
    CostIs(ids, fields);
    hide Cost, IsTag, ToJson, FieldsToJson, JsonNests, Others;
    var written := FieldsToJson(ids, fields);
    if Cost(fields) == 2 {
      JsonNestsMore(ToJson(ids, Id(id)), 1, levels);
      PairNests((ID_FIELD, ToJson(ids, Id(id))), (OBJECT_TAG, JObject(written)), levels);
    }
  }

  lemma PairNests(a: Field, b: Field, levels: nat)
    requires JsonNests(a.1, levels) && JsonNests(b.1, levels)
    ensures JsonNests(JObject([a, b]), levels + 1)
  {
  }

  /** A line gives its document back, and its id. */
  lemma LineBack(ids: Ids, id: DocId, doc: Document, dates: bool)
    requires IdsOk(ids) && IsStored(doc, id)
    ensures ParseDocumentLine(ids, DocumentLine(ids, id, doc), dates) == Some(Line(Some(id), Normal(doc, dates)))
  {
    IdBack(ids, id, dates);
    TagsDiffer();
    ReadBack(ids, doc, dates);
    if doc.Object? {
      ReadFieldsBack(ids, doc.fields, dates);
      ObjectLineBack(ids, id, doc, dates);
    } else {
      hide Read, ToJson, Normal, IsTag;
      ValueLineBack(ids, id, doc, dates);
    }
  }

  lemma ValueLineBack(ids: Ids, id: DocId, doc: Document, dates: bool)
    requires !doc.Object? && Read(ids, ToJson(ids, Id(id)), dates) == Some(Id(id))
    requires Read(ids, ToJson(ids, doc), dates) == Some(Normal(doc, dates))
    ensures ParseDocumentLine(ids, DocumentLine(ids, id, doc), dates) == Some(Line(Some(id), Normal(doc, dates)))
  {
    TagsDiffer();
    hide Read, ToJson, Normal, IsTag;
    TwoFields(ID_FIELD, ToJson(ids, Id(id)), VALUE_TAG, ToJson(ids, doc));
  }

  lemma TwoFields(a: Name, x: Json, b: Name, y: Json)
    requires a == ID_FIELD && b != a
    ensures Others([(a, x), (b, y)]) == [b] && Get([(a, x), (b, y)], a) == Some(x) && Get([(a, x), (b, y)], b) == Some(y)
  {
    var fields := [(a, x), (b, y)];
    assert fields[1..] == [(b, y)] && [(b, y)][1..] == [];
    assert Others([(b, y)]) == [b] + [];
  }

  lemma ObjectLineBack(ids: Ids, id: DocId, doc: Document, dates: bool)
    requires doc.Object? && doc.fields != [] && doc.fields[0] == (ID_FIELD, Id(id))
    requires Read(ids, ToJson(ids, Id(id)), dates) == Some(Id(id))
    requires ReadFields(ids, FieldsToJson(ids, doc.fields), dates) == Some(NormalFields(doc.fields, dates))
    ensures ParseDocumentLine(ids, DocumentLine(ids, id, doc), dates) == Some(Line(Some(id), Normal(doc, dates)))
  {
    TagsDiffer();
    var written := FieldsToJson(ids, doc.fields);
    assert written[0] == (ID_FIELD, ToJson(ids, Id(id)));
    assert Get(written, ID_FIELD) == Some(ToJson(ids, Id(id)));
    hide Read, ToJson, ReadFields, FieldsToJson, NormalFields;
    var others := Others(written);
    if |others| == 1 && IsTag(others[0]) {
      TwoFields(ID_FIELD, ToJson(ids, Id(id)), OBJECT_TAG, JObject(written));
    }
  }

  /** Every line of a document has its `_id`. */
  lemma LineHasId(ids: Ids, id: DocId, doc: Document)
    requires IsStored(doc, id)
    ensures var line := DocumentLine(ids, id, doc); line != [] && line[0].0 == ID_FIELD && Get(line, ID_FIELD).Some?
  {
    hide ToJson, Writable;
  }

  // -------------------------------------------------------------- what JSON can hold

  /** JSON has no number that is not finite. */
  predicate NumbersAreFinite(json: Json)
    decreases json
  {
    match json
    case JFloat(bits) => ExactOf(Float(bits)).Finite?
    case JArray(items) => forall i :: 0 <= i < |items| ==> NumbersAreFinite(items[i])
    case JObject(fields) => forall i :: 0 <= i < |fields| ==> NumbersAreFinite(fields[i].1)
    case _ => true
  }

  lemma {:induction false} WrittenAsFinite(ids: Ids, doc: Document)
    ensures NumbersAreFinite(ToJson(ids, doc))
    decreases doc, 1
  {
    match doc
    case Array(items) => ItemsAsFinite(ids, items);
    case Object(fields) => FieldsAsFinite(ids, fields);
    case _ =>
  }

  lemma {:induction false} ItemsAsFinite(ids: Ids, items: seq<Document>)
    ensures NumbersAreFinite(JArray(ItemsToJson(ids, items)))
    decreases items, 1
  {
    hide ToJson;
    if items != [] {
      WrittenAsFinite(ids, items[0]);
      ItemsAsFinite(ids, items[1..]);
      var rest := JArray(ItemsToJson(ids, items[1..]));
      assert forall i :: 0 <= i < |rest.items| ==> NumbersAreFinite(rest.items[i]);
    }
  }

  lemma {:induction false} FieldsAsFinite(ids: Ids, fields: seq<Entry>)
    ensures NumbersAreFinite(JObject(FieldsToJson(ids, fields)))
    decreases fields, 1
  {
    hide ToJson;
    if fields != [] {
      FieldAsFinite(ids, fields[0]);
      FieldsAsFinite(ids, fields[1..]);
      var rest := JObject(FieldsToJson(ids, fields[1..]));
      assert forall i :: 0 <= i < |rest.fields| ==> NumbersAreFinite(rest.fields[i].1);
    }
  }

  lemma {:induction false} FieldAsFinite(ids: Ids, field: Entry)
    ensures NumbersAreFinite(FieldToJson(ids, field).1)
    decreases field, 1
  {
    WrittenAsFinite(ids, field.1);
  }
}
