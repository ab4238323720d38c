/** How documents are stored (`src/document.rs`, `src/decode.rs`): encoding,
    decoding, and skipping a value without building it. */
module Codec {
  import opened Values

  // -------------------------------------------------------------- whole numbers

  /** Little-endian, `n` bytes of it. */
  function ToLittle(x: nat, n: nat): (bytes: seq<byte>)
    ensures |bytes| == n
  {
    if n == 0 then [] else [x % 256] + ToLittle(x / 256, n - 1)
  }

  function FromLittle(bytes: seq<byte>): (x: nat) {
    if bytes == [] then 0 else bytes[0] + 256 * FromLittle(bytes[1..])
  }

  function Power256(n: nat): (p: nat)
    ensures p > 0
  {
    if n == 0 then 1 else 256 * Power256(n - 1)
  }

  lemma {:induction false} LittleRoundTrip(x: nat, n: nat)
    requires x < Power256(n)
    ensures FromLittle(ToLittle(x, n)) == x
    decreases n
  {
    if n > 0 {
      assert x / 256 < Power256(n - 1);
      LittleRoundTrip(x / 256, n - 1);
    }
  }

  lemma {:induction false} LittleIsBounded(bytes: seq<byte>)
    ensures FromLittle(bytes) < Power256(|bytes|)
  {
    if bytes != [] { LittleIsBounded(bytes[1..]); }
  }

  lemma Powers()
    ensures Power256(4) == 0x1_0000_0000 && Power256(8) == 0x1_0000_0000_0000_0000
  {
    assert Power256(2) == 0x1_0000;
    assert Power256(4) == 0x1_0000 * 0x1_0000;
    assert Power256(6) == 0x1_0000 * Power256(4);
    assert Power256(8) == 0x1_0000 * Power256(6);
  }

  function ToU64(x: i64): (u: u64) {
    if x >= 0 then x else x + 0x1_0000_0000_0000_0000
  }

  function ToI64(u: u64): (x: i64)
    ensures ToU64(x) == u
  {
    if u < 0x8000_0000_0000_0000 then u else u - 0x1_0000_0000_0000_0000
  }

  // ------------------------------------------------------------------------ text

  predicate Continues(b: byte) {
    0x80 <= b < 0xC0
  }

  /** UTF-8, as section 4 of RFC 3629 has it. */
  predicate IsUtf8(s: seq<byte>) {
    if s == [] then true
    else if s[0] < 0x80 then IsUtf8(s[1..])
    else if 0xC2 <= s[0] < 0xE0 then |s| >= 2 && Continues(s[1]) && IsUtf8(s[2..])
    else if 0xE0 <= s[0] < 0xF0 then
      && |s| >= 3 && Continues(s[1]) && Continues(s[2])
      && (s[0] == 0xE0 ==> s[1] >= 0xA0) && (s[0] == 0xED ==> s[1] < 0xA0)
      && IsUtf8(s[3..])
    else
      && 0xF0 <= s[0] < 0xF5 && |s| >= 4 && Continues(s[1]) && Continues(s[2]) && Continues(s[3])
      && (s[0] == 0xF0 ==> s[1] >= 0x90) && (s[0] == 0xF4 ==> s[1] < 0x90)
      && IsUtf8(s[4..])
  }

  // --------------------------------------------------------------------- objects

  type Name = seq<byte>
  type Entry = (Name, Document)

  function Lookup(map': seq<Entry>, name: Name): (value: Option<Document>) {
    if map' == [] then None
    else if map'[0].0 == name then Some(map'[0].1)
    else Lookup(map'[1..], name)
  }

  /** `Map::insert`: a new field goes last, one there keeps its place. */
  function Insert(map': seq<Entry>, name: Name, value: Document): (after: seq<Entry>) {
    if map' == [] then [(name, value)]
    else if map'[0].0 == name then [(name, value)] + map'[1..]
    else [map'[0]] + Insert(map'[1..], name, value)
  }

  /** No name comes twice. */
  predicate IsMap(map': seq<Entry>) {
    forall i, j :: 0 <= i < j < |map'| ==> map'[i].0 != map'[j].0
  }

  /** Every object in a document is a map: no name comes twice. */
  predicate Maps(doc: Document) {
    match doc
    case Object(fields) => IsMap(fields) && forall i :: 0 <= i < |fields| ==> Maps(fields[i].1)
    case Array(items) => forall i :: 0 <= i < |items| ==> Maps(items[i])
    case _ => true
  }

  // ---------------------------------------------------------------------- errors

  /** What was being read. */
  datatype What =
    | ATag | ABool | AnInt | AFloat | AString | Bytes | AnArrayLength | AnObjectLength | AKey | AnId | ADateTime

  /** Damage, as it is reported. */
  datatype Damage =
    | Short(what: What, needed: nat, left: nat)
    | BadUtf8(what: What)
    | TooDeep
    | UnknownTag(tag: byte)
    | BadNanos(nanos: nat)

  /** A value read and the bytes after it, or damage. */
  datatype Read<+T> = Good(value: T, rest: seq<byte>) | Bad(damage: Damage)

  function Take(bytes: seq<byte>, n: nat, what: What): (r: Read<seq<byte>>)
    ensures r.Good? ==> r.value + r.rest == bytes && |r.value| == n
  {
    if |bytes| < n then Bad(Short(what, n, |bytes|)) else Good(bytes[..n], bytes[n..])
  }

  function TakeNumber(bytes: seq<byte>, n: nat, what: What): (r: Read<nat>)
    ensures r.Good? ==> r.value < Power256(n) && |r.rest| == |bytes| - n
  {
    match Take(bytes, n, what)
    case Bad(d) => Bad(d)
    case Good(raw, rest) =>
      LittleIsBounded(raw);
      Good(FromLittle(raw), rest)
  }

  function TakePrefixed(bytes: seq<byte>, what: What): (r: Read<seq<byte>>) {
    match TakeNumber(bytes, 4, what)
    case Bad(d) => Bad(d)
    case Good(len, rest) => Take(rest, len, what)
  }

  function TakeStr(bytes: seq<byte>, what: What): (r: Read<seq<byte>>) {
    match TakePrefixed(bytes, what)
    case Bad(d) => Bad(d)
    case Good(raw, rest) => if IsUtf8(raw) then Good(raw, rest) else Bad(BadUtf8(what))
  }

  function TakeDateTime(bytes: seq<byte>): (r: Read<Document>) {
    match TakeNumber(bytes, 8, ADateTime)
    case Bad(d) => Bad(d)
    case Good(secs, rest) =>
      match TakeNumber(rest, 4, ADateTime)
      case Bad(d) => Bad(d)
      case Good(nanos, rest) =>
        Powers();
        if nanos < 1_000_000_000 then Good(DateTime(ToI64(secs), nanos), rest) else Bad(BadNanos(nanos))
  }

  // -------------------------------------------------------------------- decoding

  const MAX_NESTING: nat := 64

  const TAG_ARRAY: byte := 6
  const TAG_OBJECT: byte := 7

  /** A value that opens no array or object, after its tag. */
  function DecodeScalar(tag: byte, bytes: seq<byte>): (r: Read<Document>)
    requires tag != TAG_ARRAY && tag != TAG_OBJECT
  {
    if tag == 0 then Good(Null, bytes)
    else if tag == 1 then
      match Take(bytes, 1, ABool) case Bad(d) => Bad(d) case Good(b, rest) => Good(Bool(b[0] != 0), rest)
    else if tag == 2 then
      match TakeNumber(bytes, 8, AnInt) case Bad(d) => Bad(d) case Good(x, rest) => Powers(); Good(Int(ToI64(x)), rest)
    else if tag == 3 then
      match TakeNumber(bytes, 8, AFloat) case Bad(d) => Bad(d) case Good(x, rest) => Powers(); Good(Float(x), rest)
    else if tag == 4 then
      match TakeStr(bytes, AString) case Bad(d) => Bad(d) case Good(s, rest) => Good(Str(s), rest)
    else if tag == 5 then
      match TakePrefixed(bytes, Bytes) case Bad(d) => Bad(d) case Good(s, rest) => Good(Binary(s), rest)
    else if tag == 8 then
      match Take(bytes, 16, AnId) case Bad(d) => Bad(d) case Good(s, rest) => Good(Id(s), rest)
    else if tag == 9 then TakeDateTime(bytes)
    else Bad(UnknownTag(tag))
  }

  /** `decode_value`: `levels` more objects or arrays may open. */
  function Decode(bytes: seq<byte>, levels: nat): (r: Read<Document>)
    decreases levels, 0, 0
  {
    match Take(bytes, 1, ATag)
    case Bad(d) => Bad(d)
    case Good(tag, rest) =>
      if tag[0] != TAG_ARRAY && tag[0] != TAG_OBJECT then DecodeScalar(tag[0], rest)
      else if levels == 0 then Bad(TooDeep)
      else if tag[0] == TAG_ARRAY then
        match TakeNumber(rest, 4, AnArrayLength)
        case Bad(d) => Bad(d)
        case Good(count, rest) => AsArray(DecodeItems(rest, levels - 1, count, []))
      else
        match TakeNumber(rest, 4, AnObjectLength)
        case Bad(d) => Bad(d)
        case Good(count, rest) => AsObject(DecodeEntries(rest, levels - 1, count, []))
  }

  function AsArray(r: Read<seq<Document>>): (d: Read<Document>) {
    match r case Bad(d) => Bad(d) case Good(items, rest) => Good(Array(items), rest)
  }

  function AsObject(r: Read<seq<Entry>>): (d: Read<Document>) {
    match r case Bad(d) => Bad(d) case Good(entries, rest) => Good(Object(entries), rest)
  }

  function DecodeItems(bytes: seq<byte>, levels: nat, count: nat, items: seq<Document>): (r: Read<seq<Document>>)
    decreases levels, 1, count
  {
    if count == 0 then Good(items, bytes)
    else
      match Decode(bytes, levels)
      case Bad(d) => Bad(d)
      case Good(item, rest) => DecodeItems(rest, levels, count - 1, items + [item])
  }

  function DecodeEntries(bytes: seq<byte>, levels: nat, count: nat, entries: seq<Entry>): (r: Read<seq<Entry>>)
    decreases levels, 1, count
  {
    if count == 0 then Good(entries, bytes)
    else
      match TakeStr(bytes, AKey)
      case Bad(d) => Bad(d)
      case Good(key, rest) =>
        match Decode(rest, levels)
        case Bad(d) => Bad(d)
        case Good(value, rest) => DecodeEntries(rest, levels, count - 1, Insert(entries, key, value))
  }

  lemma ItemsStep(bytes: seq<byte>, levels: nat, count: nat, items: seq<Document>)
    requires count > 0
    ensures var item := Decode(bytes, levels);
            && (item.Bad? ==> DecodeItems(bytes, levels, count, items) == Bad(item.damage))
            && (item.Good? ==>
                  DecodeItems(bytes, levels, count, items) == DecodeItems(item.rest, levels, count - 1, items + [item.value]))
  {
    hide Decode;
  }

  lemma ItemsDone(bytes: seq<byte>, levels: nat, items: seq<Document>)
    ensures DecodeItems(bytes, levels, 0, items) == Good(items, bytes)
  {
  }

  /** A value after its tag. */
  function DecodeAs(tag: byte, rest: seq<byte>, levels: nat): (r: Read<Document>) {
    if tag != TAG_ARRAY && tag != TAG_OBJECT then DecodeScalar(tag, rest)
    else if levels == 0 then Bad(TooDeep)
    else if tag == TAG_ARRAY then
      var count := TakeNumber(rest, 4, AnArrayLength);
      if count.Bad? then Bad(count.damage) else AsArray(DecodeItems(count.rest, levels - 1, count.value, []))
    else
      var count := TakeNumber(rest, 4, AnObjectLength);
      if count.Bad? then Bad(count.damage) else AsObject(DecodeEntries(count.rest, levels - 1, count.value, []))
  }

  lemma DecodeOpens(bytes: seq<byte>, levels: nat)
    ensures bytes == [] ==> Decode(bytes, levels) == Bad(Short(ATag, 1, 0))
    ensures bytes != [] ==> Decode(bytes, levels) == DecodeAs(bytes[0], bytes[1..], levels)
  {
    hide DecodeScalar, DecodeItems, DecodeEntries;
  }

  lemma EntriesDone(bytes: seq<byte>, levels: nat, entries: seq<Entry>)
    ensures DecodeEntries(bytes, levels, 0, entries) == Good(entries, bytes)
  {
  }

  lemma EntriesStep(bytes: seq<byte>, levels: nat, count: nat, entries: seq<Entry>)
    requires count > 0
    ensures var key := TakeStr(bytes, AKey);
            && (key.Bad? ==> DecodeEntries(bytes, levels, count, entries) == Bad(key.damage))
            && (key.Good? ==>
                  var value := Decode(key.rest, levels);
                  && (value.Bad? ==> DecodeEntries(bytes, levels, count, entries) == Bad(value.damage))
                  && (value.Good? ==>
                        DecodeEntries(bytes, levels, count, entries)
                        == DecodeEntries(value.rest, levels, count - 1, Insert(entries, key.value, value.value))))
  {
    hide Decode, TakeStr, Insert;
  }

  // -------------------------------------------------------------------- skipping

  datatype Skipped = Past(rest: seq<byte>) | Damaged(damage: Damage)

  /** A read without its value. */
  function Over<T>(r: Read<T>): (s: Skipped) {
    match r case Good(_, rest) => Past(rest) case Bad(d) => Damaged(d)
  }

  /** `skip_value`: past one value, checking all that decoding checks. */
  method SkipValue(bytes: seq<byte>, levels: nat) returns (s: Skipped)
    ensures s == Over(Decode(bytes, levels))
    decreases levels, 0
  {
    hide Decode, DecodeScalar, DecodeItems, DecodeEntries;
    DecodeOpens(bytes, levels);
    var tag := Take(bytes, 1, ATag);
    if tag.Bad? {
      return Damaged(tag.damage);
    }
    if tag.value[0] != TAG_ARRAY && tag.value[0] != TAG_OBJECT {
      s := SkipScalar(tag.value[0], tag.rest);
      return;
    }
    if levels == 0 {
      return Damaged(TooDeep);
    }
    if tag.value[0] == TAG_ARRAY {
      var count := TakeNumber(tag.rest, 4, AnArrayLength);
      if count.Bad? {
        return Damaged(count.damage);
      }
      s := SkipItems(count.rest, levels - 1, count.value);
    } else {
      var count := TakeNumber(tag.rest, 4, AnObjectLength);
      if count.Bad? {
        return Damaged(count.damage);
      }
      s := SkipEntries(count.rest, levels - 1, count.value);
    }
  }

  method SkipItems(bytes: seq<byte>, levels: nat, count: nat) returns (s: Skipped)
    ensures s == Over(DecodeItems(bytes, levels, count, []))
    decreases levels, 1
  {
    var rest := bytes;
    hide Decode, DecodeItems;
    ghost var items: seq<Document> := [];
    for i := 0 to count
      invariant DecodeItems(bytes, levels, count, []) == DecodeItems(rest, levels, count - i, items)
    {
      ItemsStep(rest, levels, count - i, items);
      ghost var value := Decode(rest, levels);
      s := SkipValue(rest, levels);
      if s.Damaged? {
        return;
      }
      items := items + [value.value];
      rest := s.rest;
    }
    ItemsDone(rest, levels, items);
    s := Past(rest);
  }

  method SkipEntries(bytes: seq<byte>, levels: nat, count: nat) returns (s: Skipped)
    ensures s == Over(DecodeEntries(bytes, levels, count, []))
    decreases levels, 1
  {
    hide Decode, TakeStr, Insert, DecodeEntries;
    var rest := bytes;
    ghost var entries: seq<Entry> := [];
    for i := 0 to count
      invariant DecodeEntries(bytes, levels, count, []) == DecodeEntries(rest, levels, count - i, entries)
    {
      EntriesStep(rest, levels, count - i, entries);
      var key := TakeStr(rest, AKey);
      if key.Bad? {
        return Damaged(key.damage);
      }
      ghost var value := Decode(key.rest, levels);
      s := SkipValue(key.rest, levels);
      if s.Damaged? {
        return;
      }
      entries := Insert(entries, key.value, value.value);
      rest := s.rest;
    }
    EntriesDone(rest, levels, entries);
    s := Past(rest);
  }

  method SkipScalar(tag: byte, bytes: seq<byte>) returns (s: Skipped)
    requires tag != TAG_ARRAY && tag != TAG_OBJECT
    ensures s == Over(DecodeScalar(tag, bytes))
  {
    if tag == 0 { return Past(bytes); }
    if tag == 1 { return Over(Take(bytes, 1, ABool)); }
    if tag == 2 { return Over(TakeNumber(bytes, 8, AnInt)); }
    if tag == 3 { return Over(TakeNumber(bytes, 8, AFloat)); }
    if tag == 4 { return Over(TakeStr(bytes, AString)); }
    if tag == 5 { return Over(TakePrefixed(bytes, Bytes)); }
    if tag == 8 { return Over(Take(bytes, 16, AnId)); }
    if tag == 9 { return Over(TakeDateTime(bytes)); }
    s := Damaged(UnknownTag(tag));
  }

  /** `decode_value`, along a cursor. */
  method DecodeValue(bytes: seq<byte>, levels: nat) returns (r: Read<Document>)
    ensures r == Decode(bytes, levels)
    decreases levels, 0
  {
    hide Decode, DecodeScalar, DecodeItems, DecodeEntries;
    DecodeOpens(bytes, levels);
    var tag := Take(bytes, 1, ATag);
    if tag.Bad? {
      return Bad(tag.damage);
    }
    if tag.value[0] != TAG_ARRAY && tag.value[0] != TAG_OBJECT {
      return DecodeScalar(tag.value[0], tag.rest);
    }
    if levels == 0 {
      return Bad(TooDeep);
    }
    if tag.value[0] == TAG_ARRAY {
      var count := TakeNumber(tag.rest, 4, AnArrayLength);
      if count.Bad? {
        return Bad(count.damage);
      }
      r := DecodeArray(count.rest, levels - 1, count.value);
    } else {
      var count := TakeNumber(tag.rest, 4, AnObjectLength);
      if count.Bad? {
        return Bad(count.damage);
      }
      r := DecodeObject(count.rest, levels - 1, count.value);
    }
  }

  method DecodeArray(bytes: seq<byte>, levels: nat, count: nat) returns (r: Read<Document>)
    ensures r == AsArray(DecodeItems(bytes, levels, count, []))
    decreases levels, 1
  {
    hide Decode, DecodeItems;
    var rest, items: seq<Document> := bytes, [];
    for i := 0 to count
      invariant DecodeItems(bytes, levels, count, []) == DecodeItems(rest, levels, count - i, items)
    {
      ItemsStep(rest, levels, count - i, items);
      r := DecodeValue(rest, levels);
      if r.Bad? {
        return;
      }
      items, rest := items + [r.value], r.rest;
    }
    ItemsDone(rest, levels, items);
    r := Good(Array(items), rest);
  }

  method DecodeObject(bytes: seq<byte>, levels: nat, count: nat) returns (r: Read<Document>)
    ensures r == AsObject(DecodeEntries(bytes, levels, count, []))
    decreases levels, 1
  {
    hide Decode, TakeStr, Insert, DecodeEntries;
    var rest, entries: seq<Entry> := bytes, [];
    for i := 0 to count
      invariant DecodeEntries(bytes, levels, count, []) == DecodeEntries(rest, levels, count - i, entries)
    {
      EntriesStep(rest, levels, count - i, entries);
      var key := TakeStr(rest, AKey);
      if key.Bad? {
        return Bad(key.damage);
      }
      r := DecodeValue(key.rest, levels);
      if r.Bad? {
        return;
      }
      entries, rest := Insert(entries, key.value, r.value), r.rest;
    }
    EntriesDone(rest, levels, entries);
    r := Good(Object(entries), rest);
  }

  // -------------------------------------------------------------------- encoding

  const U32_MAX: nat := 0xFFFF_FFFF

  /** What can be written: names distinct, text in UTF-8, lengths and counts that
      fit four bytes, an id its sixteen, nanoseconds below a second. */
  predicate Writable(doc: Document)
    decreases doc, 1
  {
    match doc
    case Str(s) => IsUtf8(s) && |s| <= U32_MAX
    case Binary(s) => |s| <= U32_MAX
    case Array(items) => |items| <= U32_MAX && forall i :: 0 <= i < |items| ==> Writable(items[i])
    case Object(fields) =>
      && |fields| <= U32_MAX && IsMap(fields)
      && forall i :: 0 <= i < |fields| ==>
           IsUtf8(fields[i].0) && |fields[i].0| <= U32_MAX && Writable(fields[i].1)
    case Id(id) => |id| == 16
    case DateTime(_, nanos) => nanos < 1_000_000_000
    case _ => true
  }

  /** Whether at most `levels` objects and arrays open inside each other. */
  predicate Nests(doc: Document, levels: nat)
    decreases doc
  {
    match doc
    case Array(items) => levels >= 1 && forall i :: 0 <= i < |items| ==> Nests(items[i], levels - 1)
    case Object(fields) => levels >= 1 && forall i :: 0 <= i < |fields| ==> Nests(fields[i].1, levels - 1)
    case _ => true
  }

  function Prefixed(s: seq<byte>): (bytes: seq<byte>) {
    ToLittle(|s|, 4) + s
  }

  /** `write_document`. */
  function Encode(doc: Document): (bytes: seq<byte>)
    decreases doc, 0
  {
    match doc
    case Null => [0]
    case Bool(b) => [1, if b then 1 else 0]
    case Int(x) => [2] + ToLittle(ToU64(x), 8)
    case Float(bits) => [3] + ToLittle(bits, 8)
    case Str(s) => [4] + Prefixed(s)
    case Binary(s) => [5] + Prefixed(s)
    case Array(items) => [TAG_ARRAY] + ToLittle(|items|, 4) + EncodeItems(items)
    case Object(fields) => [TAG_OBJECT] + ToLittle(|fields|, 4) + EncodeEntries(fields)
    case Id(id) => [8] + id
    case DateTime(secs, nanos) => [9] + ToLittle(ToU64(secs), 8) + ToLittle(nanos, 4)
  }

  function EncodeItems(items: seq<Document>): (bytes: seq<byte>)
    decreases items, 0
  {
    if items == [] then [] else Encode(items[0]) + EncodeItems(items[1..])
  }

  function EncodeEntries(fields: seq<Entry>): (bytes: seq<byte>)
    decreases fields, 0
  {
    if fields == [] then [] else EncodeEntry(fields[0]) + EncodeEntries(fields[1..])
  }

  function EncodeEntry(entry: Entry): (bytes: seq<byte>)
    decreases entry, 0
  {
    Prefixed(entry.0) + Encode(entry.1)
  }

  // ------------------------------------------------------------------ round trips

  lemma TakeBack(s: seq<byte>, rest: seq<byte>, what: What)
    ensures Take(s + rest, |s|, what) == Good(s, rest)
  {
    assert (s + rest)[..|s|] == s && (s + rest)[|s|..] == rest;
  }

  lemma NumberBack(x: nat, n: nat, rest: seq<byte>, what: What)
    requires x < Power256(n)
    ensures TakeNumber(ToLittle(x, n) + rest, n, what) == Good(x, rest)
  {
    TakeBack(ToLittle(x, n), rest, what);
    LittleRoundTrip(x, n);
  }

  lemma PrefixedBack(s: seq<byte>, rest: seq<byte>, what: What)
    requires |s| <= U32_MAX
    ensures TakePrefixed(Prefixed(s) + rest, what) == Good(s, rest)
  {
    Powers();
    hide Power256;
    assert Prefixed(s) + rest == ToLittle(|s|, 4) + (s + rest);
    NumberBack(|s|, 4, s + rest, what);
    TakeBack(s, rest, what);
  }

  /** Decoding what was encoded, whatever follows, gives it back. */
  lemma {:induction false} RoundTrip(doc: Document, rest: seq<byte>, levels: nat)
    requires Writable(doc) && Nests(doc, levels)
    ensures Decode(Encode(doc) + rest, levels) == Good(doc, rest)
    decreases doc, 1
  {
    hide Decode, DecodeScalar, Power256, IsUtf8, IsMap;
    match doc
    case Array(items) =>
      RoundTripItems(items, rest, levels - 1, []);
      ArrayBack(items, rest, levels);
    case Object(fields) =>
      assert [] + fields == fields;
      RoundTripEntries(fields, rest, levels - 1, []);
      ObjectBack(fields, rest, levels);
    case _ =>
      hide Writable, Nests;
      DecodeOpens(Encode(doc) + rest, levels);
      ScalarRoundTrip(doc, rest);
      hide Encode;
  }

  lemma ArrayBack(items: seq<Document>, rest: seq<byte>, levels: nat)
    requires levels >= 1 && |items| <= U32_MAX
    requires DecodeItems(EncodeItems(items) + rest, levels - 1, |items|, []) == Good([] + items, rest)
    ensures Decode(Encode(Array(items)) + rest, levels) == Good(Array(items), rest)
  {
    hide Decode, DecodeItems, EncodeItems, ToLittle, TakeNumber, Power256;
    var bytes := Encode(Array(items)) + rest;
    DecodeOpens(bytes, levels);
    assert bytes[1..] == ToLittle(|items|, 4) + (EncodeItems(items) + rest);
    Powers();
    NumberBack(|items|, 4, EncodeItems(items) + rest, AnArrayLength);
    assert [] + items == items;
  }

  lemma ObjectBack(fields: seq<Entry>, rest: seq<byte>, levels: nat)
    requires levels >= 1 && |fields| <= U32_MAX
    requires DecodeEntries(EncodeEntries(fields) + rest, levels - 1, |fields|, []) == Good([] + fields, rest)
    ensures Decode(Encode(Object(fields)) + rest, levels) == Good(Object(fields), rest)
  {
    hide Decode, DecodeEntries, EncodeEntries, ToLittle, TakeNumber, Power256;
    var bytes := Encode(Object(fields)) + rest;
    DecodeOpens(bytes, levels);
    assert bytes[1..] == ToLittle(|fields|, 4) + (EncodeEntries(fields) + rest);
    Powers();
    NumberBack(|fields|, 4, EncodeEntries(fields) + rest, AnObjectLength);
    assert [] + fields == fields;
  }

  lemma ScalarRoundTrip(doc: Document, rest: seq<byte>)
    requires Writable(doc) && !doc.Array? && !doc.Object?
    ensures Encode(doc) != [] && Encode(doc)[0] != TAG_ARRAY && Encode(doc)[0] != TAG_OBJECT
    ensures DecodeScalar(Encode(doc)[0], Encode(doc)[1..] + rest) == Good(doc, rest)
    ensures (Encode(doc) + rest)[1..] == Encode(doc)[1..] + rest
  {
    Powers();
    hide Power256, ToLittle, TakeNumber, TakePrefixed, Prefixed, IsUtf8, ToU64;
    match doc
    case Int(x) =>
      assert Encode(doc)[1..] == ToLittle(ToU64(x), 8);
      NumberBack(ToU64(x), 8, rest, AnInt);
      SignedBack(x);
    case Float(bits) =>
      assert Encode(doc)[1..] == ToLittle(bits, 8);
      NumberBack(bits, 8, rest, AFloat);
    case Str(s) =>
      assert Encode(doc)[1..] == Prefixed(s);
      PrefixedBack(s, rest, AString);
    case Binary(s) =>
      assert Encode(doc)[1..] == Prefixed(s);
      PrefixedBack(s, rest, Bytes);
    case Id(id) =>
      assert Encode(doc)[1..] == id;
      TakeBack(id, rest, AnId);
    case DateTime(secs, nanos) =>
      DateTimeBack(secs, nanos, rest);
    case Null =>
      assert Encode(doc)[1..] + rest == rest;
    case Bool(b) =>
      assert Encode(doc)[1..] + rest == [if b then 1 else 0] + rest;
    case _ =>
  }

  lemma SignedBack(x: i64)
    ensures ToI64(ToU64(x)) == x
  {
  }

  lemma DateTimeBack(secs: i64, nanos: nat, rest: seq<byte>)
    requires nanos < 1_000_000_000
    ensures var bytes := Encode(DateTime(secs, nanos));
            DecodeScalar(bytes[0], bytes[1..] + rest) == Good(DateTime(secs, nanos), rest)
  {
    Powers();
    hide Power256, ToLittle, TakeNumber, ToU64;
    assert Encode(DateTime(secs, nanos))[1..] + rest == ToLittle(ToU64(secs), 8) + (ToLittle(nanos, 4) + rest);
    NumberBack(ToU64(secs), 8, ToLittle(nanos, 4) + rest, ADateTime);
    NumberBack(nanos, 4, rest, ADateTime);
    SignedBack(secs);
  }

  lemma {:induction false} RoundTripItems(items: seq<Document>, rest: seq<byte>, levels: nat, done: seq<Document>)
    requires forall i :: 0 <= i < |items| ==> Writable(items[i]) && Nests(items[i], levels)
    ensures DecodeItems(EncodeItems(items) + rest, levels, |items|, done) == Good(done + items, rest)
    decreases items, 1
  {
    hide Decode, DecodeItems, Writable, Nests;
    if items == [] {
      assert EncodeItems(items) + rest == rest && done + items == done;
      ItemsDone(rest, levels, done);
    } else {
      var tail := EncodeItems(items[1..]) + rest;
      assert EncodeItems(items) + rest == Encode(items[0]) + tail;
      RoundTrip(items[0], tail, levels);
      ItemsStep(Encode(items[0]) + tail, levels, |items|, done);
      RoundTripItems(items[1..], rest, levels, done + [items[0]]);
      assert done + items == (done + [items[0]]) + items[1..];
    }
  }

  lemma {:induction false} InsertIsLast(map': seq<Entry>, name: Name, value: Document)
    requires forall e <- map' :: e.0 != name
    ensures Insert(map', name, value) == map' + [(name, value)]
  {
    if map' != [] {
      assert map'[0] in map';
      InsertIsLast(map'[1..], name, value);
    }
  }

  lemma {:induction false} RoundTripEntries(fields: seq<Entry>, rest: seq<byte>, levels: nat, done: seq<Entry>)
    requires IsMap(done + fields)
    requires forall i :: 0 <= i < |fields| ==>
               IsUtf8(fields[i].0) && |fields[i].0| <= U32_MAX && Writable(fields[i].1) && Nests(fields[i].1, levels)
    ensures DecodeEntries(EncodeEntries(fields) + rest, levels, |fields|, done) == Good(done + fields, rest)
    decreases fields, 1
  {
    hide Decode, DecodeEntries, Writable, Nests, IsUtf8, Insert;
    if fields == [] {
      assert EncodeEntries(fields) + rest == rest && done + fields == done;
      EntriesDone(rest, levels, done);
    } else {
      var entry := fields[0];
      var tail := EncodeEntries(fields[1..]) + rest;
      assert done + fields == (done + [entry]) + fields[1..];
      LastIsNew(done, fields);
      hide IsMap;
      InsertIsLast(done, entry.0, entry.1);
      assert EncodeEntries(fields) + rest == Prefixed(entry.0) + (Encode(entry.1) + tail);
      EntryBack(entry, tail, levels);
      EntriesStep(EncodeEntries(fields) + rest, levels, |fields|, done);
      RoundTripEntries(fields[1..], rest, levels, done + [entry]);
    }
  }

  lemma LastIsNew(done: seq<Entry>, fields: seq<Entry>)
    requires IsMap(done + fields) && fields != []
    ensures forall e <- done :: e.0 != fields[0].0
  {
    forall e | e in done ensures e.0 != fields[0].0 {
      var i :| 0 <= i < |done| && done[i] == e;
      assert (done + fields)[i] == e && (done + fields)[|done|] == fields[0];
    }
  }

  lemma {:induction false} EntryBack(entry: Entry, tail: seq<byte>, levels: nat)
    requires IsUtf8(entry.0) && |entry.0| <= U32_MAX && Writable(entry.1) && Nests(entry.1, levels)
    ensures TakeStr(Prefixed(entry.0) + (Encode(entry.1) + tail), AKey) == Good(entry.0, Encode(entry.1) + tail)
    ensures Decode(Encode(entry.1) + tail, levels) == Good(entry.1, tail)
    decreases entry, 1
  {
    PrefixedBack(entry.0, Encode(entry.1) + tail, AKey);
    RoundTrip(entry.1, tail, levels);
  }

  // ------------------------------------------------------------ stored documents

  const ID_FIELD: Name := [95, 105, 100] // _id

  function Without(map': seq<Entry>, name: Name): (after: seq<Entry>) {
    if map' == [] then []
    else if map'[0].0 == name then Without(map'[1..], name)
    else [map'[0]] + Without(map'[1..], name)
  }

  /** `encode_stored`: an object without its `_id`, which the cell holds. */
  function EncodeStored(doc: Document): (bytes: seq<byte>) {
    if doc.Object? then Encode(Object(Without(doc.fields, ID_FIELD))) else Encode(doc)
  }

  /** `with_id`: the id in an object's `_id` field, first. */
  function WithId(doc: Document, id: DocId): (after: Document) {
    if doc.Object? then Object([(ID_FIELD, Id(id))] + Without(doc.fields, ID_FIELD)) else doc
  }

  lemma {:induction false} WithoutHas(map': seq<Entry>, name: Name)
    ensures forall e :: e in Without(map', name) <==> e in map' && e.0 != name
    ensures IsMap(map') ==> IsMap(Without(map', name))
    ensures |Without(map', name)| <= |map'|
    ensures (forall e <- map' :: e.0 != name) ==> Without(map', name) == map'
  {
    if map' != [] {
      WithoutHas(map'[1..], name);
      assert map' == [map'[0]] + map'[1..];
      if IsMap(map') && map'[0].0 != name {
        MapFront(map'[0], map'[1..], Without(map'[1..], name));
      }
    }
  }

  lemma MapFront(e: Entry, all: seq<Entry>, some: seq<Entry>)
    requires IsMap([e] + all) && IsMap(some) && forall x <- some :: x in all
    ensures IsMap([e] + some)
  {
    forall x | x in some ensures x.0 != e.0 {
      var i :| 0 <= i < |all| && all[i] == x;
      assert ([e] + all)[i + 1] == x && ([e] + all)[0] == e;
    }
    var front := [e] + some;
    forall i, j | 0 <= i < j < |front| ensures front[i].0 != front[j].0 {
      if i == 0 { assert front[j] == some[j - 1] && some[j - 1] in some; }
    }
  }

  /** A stored document read back with its id is the document, its id first. */
  lemma StoredRoundTrip(doc: Document, id: DocId, rest: seq<byte>)
    requires Writable(doc) && Nests(doc, MAX_NESTING)
    ensures var r := Decode(EncodeStored(doc) + rest, MAX_NESTING);
            r.Good? && WithId(r.value, id) == WithId(doc, id) && r.rest == rest
  {
    if doc.Object? {
      var kept := Without(doc.fields, ID_FIELD);
      WithoutHas(doc.fields, ID_FIELD);
      WithoutHas(kept, ID_FIELD);
      forall i | 0 <= i < |kept|
        ensures IsUtf8(kept[i].0) && |kept[i].0| <= U32_MAX && Writable(kept[i].1) && Nests(kept[i].1, MAX_NESTING - 1)
      {
        assert kept[i] in doc.fields;
      }
      hide Decode, Without;
      RoundTrip(Object(kept), rest, MAX_NESTING);
    } else {
      RoundTrip(doc, rest, MAX_NESTING);
    }
  }

  // -------------------------------------------------------------------- writing

  lemma {:induction false} ItemsJoin(a: seq<Document>, b: seq<Document>)
    ensures EncodeItems(a + b) == EncodeItems(a) + EncodeItems(b)
  {
    hide Encode;
    if a == [] {
      assert a + b == b;
    } else {
      assert (a + b)[1..] == a[1..] + b;
      assert EncodeItems(a + b) == Encode(a[0]) + EncodeItems(a[1..] + b);
      ItemsJoin(a[1..], b);
      hide EncodeItems;
    }
  }

  lemma {:induction false} EntriesJoin(a: seq<Entry>, b: seq<Entry>)
    ensures EncodeEntries(a + b) == EncodeEntries(a) + EncodeEntries(b)
  {
    hide EncodeEntry;
    if a == [] {
      assert a + b == b;
    } else {
      assert (a + b)[1..] == a[1..] + b;
      assert EncodeEntries(a + b) == EncodeEntry(a[0]) + EncodeEntries(a[1..] + b);
      EntriesJoin(a[1..], b);
      hide EncodeEntries;
    }
  }

  /** `write_document`: the encoding appended to a buffer. */
  method WriteDocument(doc: Document, buffer: seq<byte>) returns (after: seq<byte>)
    ensures after == buffer + Encode(doc)
    decreases doc, 0
  {
    if doc.Array? {
      after := WriteItems(doc.items, buffer + [TAG_ARRAY] + ToLittle(|doc.items|, 4));
    } else if doc.Object? {
      after := WriteEntries(doc.fields, buffer + [TAG_OBJECT] + ToLittle(|doc.fields|, 4));
    } else {
      after := buffer + Encode(doc);
    }
  }

  method WriteItems(items: seq<Document>, buffer: seq<byte>) returns (after: seq<byte>)
    ensures after == buffer + EncodeItems(items)
    decreases items, 0
  {
    hide Encode;
    after := buffer;
    for i := 0 to |items|
      invariant after == buffer + EncodeItems(items[..i])
    {
      after := WriteDocument(items[i], after);
      assert items[..i + 1] == items[..i] + [items[i]];
      ItemsJoin(items[..i], [items[i]]);
    }
    assert items[..|items|] == items;
  }

  method WriteEntries(fields: seq<Entry>, buffer: seq<byte>) returns (after: seq<byte>)
    ensures after == buffer + EncodeEntries(fields)
    decreases fields, 0
  {
    hide EncodeEntry;
    after := buffer;
    for i := 0 to |fields|
      invariant after == buffer + EncodeEntries(fields[..i])
    {
      after := WriteEntry(fields[i], after);
      assert fields[..i + 1] == fields[..i] + [fields[i]];
      EntriesJoin(fields[..i], [fields[i]]);
    }
    assert fields[..|fields|] == fields;
  }

  method WriteEntry(entry: Entry, buffer: seq<byte>) returns (after: seq<byte>)
    ensures after == buffer + EncodeEntry(entry)
    decreases entry, 0
  {
    hide Encode;
    after := buffer + Prefixed(entry.0);
    after := WriteDocument(entry.1, after);
  }

  // ------------------------------------------------------------------ byte by byte

  /** Every kind of value by its tag and what follows. */
  lemma EncodedIs(doc: Document)
    ensures doc.Null? ==> Encode(doc) == [0]
    ensures doc == Bool(false) ==> Encode(doc) == [1, 0]
    ensures doc == Bool(true) ==> Encode(doc) == [1, 1]
    ensures doc.Int? ==> Encode(doc) == [2] + ToLittle(if doc.number < 0 then doc.number + 0x1_0000_0000_0000_0000 else doc.number, 8)
    ensures doc.Float? ==> Encode(doc) == [3] + ToLittle(doc.bits, 8)
    ensures doc.Str? ==> Encode(doc) == [4] + ToLittle(|doc.text|, 4) + doc.text
    ensures doc.Binary? ==> Encode(doc) == [5] + ToLittle(|doc.data|, 4) + doc.data
    ensures doc.Array? ==> Encode(doc) == [6] + ToLittle(|doc.items|, 4) + EncodeItems(doc.items)
    ensures doc.Object? ==> Encode(doc) == [7] + ToLittle(|doc.fields|, 4) + EncodeEntries(doc.fields)
    ensures doc.Id? ==> Encode(doc) == [8] + doc.id
    ensures doc.DateTime? ==> Encode(doc)[0] == 9 && Encode(doc)[9..] == ToLittle(doc.nanos, 4)
  {
    hide ToLittle;
  }

  /** A small document, to the byte: the object {"a": [258, "b"]}. */
  lemma KnownBytes()
    ensures Encode(Object([([97], Array([Int(258), Str([98])]))]))
         == [7, 1, 0, 0, 0] + [1, 0, 0, 0, 97] + [6, 2, 0, 0, 0] + [2, 2, 1, 0, 0, 0, 0, 0, 0] + [4, 1, 0, 0, 0, 98]
  {
    var items := [Int(258), Str([98])];
    hide ToLittle;
    TwoItems(items);
    OneField([97], Array(items));
  }

  lemma TwoItems(items: seq<Document>)
    requires items == [Int(258), Str([98])]
    ensures Encode(Array(items)) == [6, 2, 0, 0, 0] + [2, 2, 1, 0, 0, 0, 0, 0, 0] + [4, 1, 0, 0, 0, 98]
  {
    One4();
    Two4();
    Number258();
    hide ToLittle;
    var rest := items[1..];
    assert rest == [Str([98])] && rest[1..] == [];
    assert EncodeItems(rest) == Encode(rest[0]) + EncodeItems([]) == [4, 1, 0, 0, 0, 98];
    assert EncodeItems(items) == Encode(items[0]) + EncodeItems(rest);
  }

  lemma OneField(name: Name, value: Document)
    requires |name| == 1
    ensures Encode(Object([(name, value)])) == [7, 1, 0, 0, 0] + [1, 0, 0, 0, name[0]] + Encode(value)
  {
    One4();
    hide ToLittle;
    var fields := [(name, value)];
    assert fields[1..] == [] && EncodeEntries(fields[1..]) == [];
    assert EncodeEntry(fields[0]) == [1, 0, 0, 0] + name + Encode(value) && name == [name[0]];
  }

  lemma One4()
    ensures ToLittle(1, 4) == [1, 0, 0, 0]
  {
  }

  lemma Two4()
    ensures ToLittle(2, 4) == [2, 0, 0, 0]
  {
  }

  /** Least byte first. */
  lemma Number258()
    ensures ToLittle(ToU64(258), 8) == [2, 1, 0, 0, 0, 0, 0, 0]
  {
  }
}
