/** What the codec reads at all (`src/document.rs`): only what can be written, as deep
    as it was allowed; and text that is UTF-8, character by character. */
module Decoded {
  import opened Values
  import opened Codec

  // ------------------------------------------------------------------- depth

  function Deepest(a: nat, b: nat): (n: nat) {
    if a < b then b else a
  }

  /** How many arrays and objects open inside each other. */
  function Depth(doc: Document): (n: nat)
    decreases doc, 0
  {
    match doc
    case Array(items) => 1 + DepthOfItems(items)
    case Object(fields) => 1 + DepthOfFields(fields)
    case _ => 0
  }

  function DepthOfItems(items: seq<Document>): (n: nat)
    decreases items, 0
  {
    if items == [] then 0 else Deepest(Depth(items[0]), DepthOfItems(items[1..]))
  }

  function DepthOfFields(fields: seq<Entry>): (n: nat)
    decreases fields, 0
  {
    if fields == [] then 0 else Deepest(DepthOfField(fields[0]), DepthOfFields(fields[1..]))
  }

  function DepthOfField(field: Entry): (n: nat)
    decreases field, 0
  {
    Depth(field.1)
  }

  lemma {:induction false} NestsToDepth(doc: Document, levels: nat)
    ensures Nests(doc, levels) <==> Depth(doc) <= levels
    decreases doc, 1
  {
    match doc
    case Array(items) => if levels >= 1 { ItemsToDepth(items, levels - 1); }
    case Object(fields) => if levels >= 1 { FieldsToDepth(fields, levels - 1); }
    case _ =>
  }

  lemma {:induction false} ItemsToDepth(items: seq<Document>, levels: nat)
    ensures (forall i :: 0 <= i < |items| ==> Nests(items[i], levels)) <==> DepthOfItems(items) <= levels
    decreases items, 1
  {
    hide Nests, Depth;
    if items != [] {
      NestsToDepth(items[0], levels);
      ItemsToDepth(items[1..], levels);
      assert items == [items[0]] + items[1..];
    }
  }

  lemma {:induction false} FieldsToDepth(fields: seq<Entry>, levels: nat)
    ensures (forall i :: 0 <= i < |fields| ==> Nests(fields[i].1, levels)) <==> DepthOfFields(fields) <= levels
    decreases fields, 1
  {
    hide Nests, Depth;
    if fields != [] {
      FieldToDepth(fields[0], levels);
      FieldsToDepth(fields[1..], levels);
      assert fields == [fields[0]] + fields[1..];
    }
  }

  lemma {:induction false} FieldToDepth(field: Entry, levels: nat)
    ensures Nests(field.1, levels) <==> DepthOfField(field) <= levels
    decreases field, 1
  {
    NestsToDepth(field.1, levels);
  }

  // ------------------------------------------------------- what is read can be written

  ghost predicate FieldsOk(fields: seq<Entry>, levels: nat) {
    && IsMap(fields)
    && forall i :: 0 <= i < |fields| ==>
         IsUtf8(fields[i].0) && |fields[i].0| <= U32_MAX && Writable(fields[i].1) && Nests(fields[i].1, levels)
  }

  lemma {:induction false} Inserted(fields: seq<Entry>, name: Name, value: Document)
    ensures var after := Insert(fields, name, value);
            && |fields| <= |after| <= |fields| + 1
            && (forall i :: 0 <= i < |after| ==> after[i] == (name, value) || (i < |fields| && after[i] == fields[i]))
            && (forall i :: 0 <= i < |fields| ==> after[i].0 == fields[i].0)
            && (|after| > |fields| ==> forall i :: 0 <= i < |fields| ==> fields[i].0 != name)
  {
    if fields != [] && fields[0].0 != name { Inserted(fields[1..], name, value); }
  }

  lemma InsertedOk(fields: seq<Entry>, levels: nat, name: Name, value: Document)
    requires FieldsOk(fields, levels) && IsUtf8(name) && |name| <= U32_MAX && Writable(value) && Nests(value, levels)
    ensures var after := Insert(fields, name, value); FieldsOk(after, levels) && |after| <= |fields| + 1
  {
    Inserted(fields, name, value);
    hide Insert, Nests, Writable, IsUtf8;
    var after := Insert(fields, name, value);
    forall i, j | 0 <= i < j < |after| ensures after[i].0 != after[j].0 {
      if j < |fields| { assert fields[i].0 != fields[j].0; }
    }
  }

  /** What decoding gives can be written, and nests no deeper than it was allowed,
      whatever the bytes. */
  lemma {:induction false} DecodedIsWritable(bytes: seq<byte>, levels: nat)
    ensures var r := Decode(bytes, levels); r.Good? ==> Writable(r.value) && Nests(r.value, levels)
    decreases levels, 0, 0
  {
    hide Decode, DecodeItems, DecodeEntries, Writable, Nests, Power256;
    DecodeOpens(bytes, levels);
    if bytes != [] {
      if bytes[0] != TAG_ARRAY && bytes[0] != TAG_OBJECT {
        ScalarIsWritable(bytes[0], bytes[1..], levels);
      } else if levels > 0 {
        Powers();
        var items := TakeNumber(bytes[1..], 4, AnArrayLength);
        var entries := TakeNumber(bytes[1..], 4, AnObjectLength);
        if bytes[0] == TAG_ARRAY && items.Good? {
          ItemsAreWritable(items.rest, levels - 1, items.value, []);
          var r := DecodeItems(items.rest, levels - 1, items.value, []);
          if r.Good? { ArrayIsWritable(r.value, levels); }
        } else if bytes[0] == TAG_OBJECT && entries.Good? {
          EntriesAreWritable(entries.rest, levels - 1, entries.value, []);
          var r := DecodeEntries(entries.rest, levels - 1, entries.value, []);
          if r.Good? { ObjectIsWritable(r.value, levels); }
        }
      }
    }
  }

  lemma ScalarIsWritable(tag: byte, bytes: seq<byte>, levels: nat)
    requires tag != TAG_ARRAY && tag != TAG_OBJECT
    ensures var r := DecodeScalar(tag, bytes); r.Good? ==> Writable(r.value) && Nests(r.value, levels)
  {
    Powers();
    hide Power256, IsUtf8, FromLittle;
  }

  lemma ArrayIsWritable(items: seq<Document>, levels: nat)
    requires levels >= 1 && |items| <= U32_MAX
    requires forall i :: 0 <= i < |items| ==> Writable(items[i]) && Nests(items[i], levels - 1)
    ensures Writable(Array(items)) && Nests(Array(items), levels)
  {
  }

  lemma ObjectIsWritable(fields: seq<Entry>, levels: nat)
    requires levels >= 1 && |fields| <= U32_MAX && FieldsOk(fields, levels - 1)
    ensures Writable(Object(fields)) && Nests(Object(fields), levels)
  {
    hide IsMap, IsUtf8;
  }

  lemma {:induction false} ItemsAreWritable(bytes: seq<byte>, levels: nat, count: nat, items: seq<Document>)
    requires forall i :: 0 <= i < |items| ==> Writable(items[i]) && Nests(items[i], levels)
    ensures var r := DecodeItems(bytes, levels, count, items);
            r.Good? ==>
              && |r.value| == |items| + count
              && forall i :: 0 <= i < |r.value| ==> Writable(r.value[i]) && Nests(r.value[i], levels)
    decreases levels, 1, count
  {
    hide Decode, DecodeItems, Writable, Nests;
    if count == 0 {
      ItemsDone(bytes, levels, items);
    } else {
      ItemsStep(bytes, levels, count, items);
      DecodedIsWritable(bytes, levels);
      var item := Decode(bytes, levels);
      if item.Good? { ItemsAreWritable(item.rest, levels, count - 1, items + [item.value]); }
    }
  }

  lemma {:induction false} EntriesAreWritable(bytes: seq<byte>, levels: nat, count: nat, entries: seq<Entry>)
    requires FieldsOk(entries, levels)
    ensures var r := DecodeEntries(bytes, levels, count, entries);
            r.Good? ==> FieldsOk(r.value, levels) && |r.value| <= |entries| + count
    decreases levels, 1, count
  {
    hide Decode, DecodeEntries, Writable, Nests, FieldsOk, IsUtf8, Insert, TakePrefixed;
    if count == 0 {
      EntriesDone(bytes, levels, entries);
    } else {
      EntriesStep(bytes, levels, count, entries);
      var key := TakeStr(bytes, AKey);
      if key.Good? {
        PrefixIsShort(bytes, AKey);
        DecodedIsWritable(key.rest, levels);
        var value := Decode(key.rest, levels);
        if value.Good? {
          InsertedOk(entries, levels, key.value, value.value);
          EntriesAreWritable(value.rest, levels, count - 1, Insert(entries, key.value, value.value));
        }
      }
    }
  }

  lemma PrefixIsShort(bytes: seq<byte>, what: What)
    ensures var r := TakePrefixed(bytes, what); r.Good? ==> |r.value| <= U32_MAX
  {
    Powers();
    hide Power256, FromLittle;
  }

  // ------------------------------------------------------------------ fewer levels

  /** Allowed fewer levels, decoding goes the same or is refused as too deep, whatever
      the bytes. */
  lemma {:induction false} FewerLevels(bytes: seq<byte>, fewer: nat, levels: nat)
    requires fewer <= levels
    ensures Decode(bytes, fewer) == Decode(bytes, levels) || Decode(bytes, fewer) == Bad(TooDeep)
    decreases levels, 0, 0
  {
    hide Decode, DecodeScalar, DecodeItems, DecodeEntries;
    DecodeOpens(bytes, fewer);
    DecodeOpens(bytes, levels);
    if bytes != [] && fewer > 0 {
      var items := TakeNumber(bytes[1..], 4, AnArrayLength);
      var entries := TakeNumber(bytes[1..], 4, AnObjectLength);
      if items.Good? { FewerForItems(items.rest, fewer - 1, levels - 1, items.value, []); }
      if entries.Good? { FewerForEntries(entries.rest, fewer - 1, levels - 1, entries.value, []); }
    }
  }

  lemma {:induction false} FewerForItems(bytes: seq<byte>, fewer: nat, levels: nat, count: nat, items: seq<Document>)
    requires fewer <= levels
    ensures var r := DecodeItems(bytes, fewer, count, items);
            r == DecodeItems(bytes, levels, count, items) || r == Bad(TooDeep)
    decreases levels, 1, count
  {
    hide Decode, DecodeItems;
    if count == 0 {
      ItemsDone(bytes, levels, items);
      ItemsDone(bytes, fewer, items);
    } else {
      ItemsStep(bytes, levels, count, items);
      ItemsStep(bytes, fewer, count, items);
      FewerLevels(bytes, fewer, levels);
      var item := Decode(bytes, fewer);
      if item.Good? { FewerForItems(item.rest, fewer, levels, count - 1, items + [item.value]); }
    }
  }

  lemma {:induction false} FewerForEntries(bytes: seq<byte>, fewer: nat, levels: nat, count: nat, entries: seq<Entry>)
    requires fewer <= levels
    ensures var r := DecodeEntries(bytes, fewer, count, entries);
            r == DecodeEntries(bytes, levels, count, entries) || r == Bad(TooDeep)
    decreases levels, 1, count
  {
    hide Decode, DecodeEntries, TakeStr, Insert;
    if count == 0 {
      EntriesDone(bytes, levels, entries);
      EntriesDone(bytes, fewer, entries);
    } else {
      EntriesStep(bytes, levels, count, entries);
      EntriesStep(bytes, fewer, count, entries);
      var key := TakeStr(bytes, AKey);
      if key.Good? {
        FewerLevels(key.rest, fewer, levels);
        var value := Decode(key.rest, fewer);
        if value.Good? {
          FewerForEntries(value.rest, fewer, levels, count - 1, Insert(entries, key.value, value.value));
        }
      }
    }
  }

  /** A document written is read back exactly if it nests as deep as is allowed; deeper,
      it is refused as that and nothing else. */
  lemma ReadsIfNests(doc: Document, rest: seq<byte>, levels: nat)
    requires Writable(doc)
    ensures Decode(Encode(doc) + rest, levels) == if Depth(doc) <= levels then Good(doc, rest) else Bad(TooDeep)
  {
    hide Decode, Encode, Writable, Nests, Depth;
    var bytes := Encode(doc) + rest;
    var enough := Deepest(levels, Depth(doc));
    EnoughIs(levels, Depth(doc));
    NestsToDepth(doc, levels);
    NestsToDepth(doc, enough);
    RoundTrip(doc, rest, enough);
    FewerLevels(bytes, levels, enough);
    DecodedIsWritable(bytes, levels);
  }

  lemma EnoughIs(a: nat, b: nat)
    ensures a <= Deepest(a, b) && b <= Deepest(a, b)
  {
  }

  // ---------------------------------------------------------------------- text

  /** A character: a code point that is no surrogate. */
  type Scalar = c: nat | c < 0xD800 || 0xE000 <= c < 0x11_0000

  lemma PlanesEnd(c: Scalar)
    ensures c / 64 / 64 < 0x110 && c / 64 / 64 / 64 < 5
  {
    assert c < 0x11_0000;
    assert c / 64 < 0x4400;
  }

  function More(c: nat): (b: byte) {
    0x80 + c % 64
  }

  /** Its bytes: the shortest that have room for it. */
  function Character(c: Scalar): (bytes: seq<byte>) {
    var (c1, c2, c3) := (c / 64, c / 64 / 64, c / 64 / 64 / 64);
    if c < 0x80 then [c]
    else if c1 < 0x20 then [0xC0 + c1, More(c)]
    else if c2 < 0x10 then [0xE0 + c2, More(c1), More(c)]
    else
      PlanesEnd(c);
      [0xF0 + c3, More(c2), More(c1), More(c)]
  }

  function Characters(text: seq<Scalar>): (bytes: seq<byte>) {
    if text == [] then [] else Character(text[0]) + Characters(text[1..])
  }

  lemma {:induction false} CharactersAreUtf8(text: seq<Scalar>)
    ensures IsUtf8(Characters(text))
  {
    if text != [] {
      CharactersAreUtf8(text[1..]);
      OneMore(text[0], Characters(text[1..]));
    }
  }

  lemma OneMore(c: Scalar, rest: seq<byte>)
    ensures IsUtf8(Character(c) + rest) <==> IsUtf8(rest)
  {
    var (s, first) := (Character(c) + rest, Character(c));
    var n := |first|;
    assert s[n..] == rest;
    assert forall i :: 0 <= i < n ==> s[i] == first[i];
    LeadIs(c);
    hide Character;
  }

  /** What the first bytes of a character are. */
  lemma LeadIs(c: Scalar)
    ensures var s := Character(c);
            || (|s| == 1 && s[0] < 0x80)
            || (|s| == 2 && 0xC2 <= s[0] < 0xE0 && Continues(s[1]))
            || (&& |s| == 3 && 0xE0 <= s[0] < 0xF0 && Continues(s[1]) && Continues(s[2])
                && (s[0] == 0xE0 ==> s[1] >= 0xA0) && (s[0] == 0xED ==> s[1] < 0xA0))
            || (&& |s| == 4 && 0xF0 <= s[0] < 0xF5 && Continues(s[1]) && Continues(s[2]) && Continues(s[3])
                && (s[0] == 0xF0 ==> s[1] >= 0x90) && (s[0] == 0xF4 ==> s[1] < 0x90))
  {
    Sixties(c);
    PlanesEnd(c);
  }

  lemma Sixties(c: nat)
    ensures c == (c / 64) * 64 + c % 64 && c / 64 == (c / 64 / 64) * 64 + c / 64 % 64
    ensures c / 64 / 64 == (c / 64 / 64 / 64) * 64 + c / 64 / 64 % 64
  {
  }

  function Join(a: nat, b: byte): (c: nat)
    requires Continues(b)
    ensures c / 64 == a && More(c) == b && c == 64 * a + (b - 0x80)
  {
    64 * a + (b - 0x80)
  }

  /** A character at the beginning. */
  lemma FirstCharacter(s: seq<byte>) returns (c: Scalar)
    requires s != [] && IsUtf8(s)
    ensures Character(c) <= s && IsUtf8(s[|Character(c)|..])
  {
    var a: int := s[0];
    if a < 0x80 {
      c := a;
    } else if a < 0xE0 {
      c := Join(a - 0xC0, s[1]);
    } else if a < 0xF0 {
      c := Join(Join(a - 0xE0, s[1]), s[2]);
    } else {
      c := Join(Join(Join(a - 0xF0, s[1]), s[2]), s[3]);
    }
  }

  lemma {:induction false} Utf8IsCharacters(s: seq<byte>) returns (text: seq<Scalar>)
    requires IsUtf8(s)
    ensures Characters(text) == s
    decreases |s|
  {
    if s == [] {
      text := [];
    } else {
      var c := FirstCharacter(s);
      var n := |Character(c)|;
      hide IsUtf8;
      var rest := Utf8IsCharacters(s[n..]);
      text := [c] + rest;
      assert text[1..] == rest && s == s[..n] + s[n..];
    }
  }

  /** Text is bytes of characters, and those alone. */
  lemma Utf8Is(s: seq<byte>)
    ensures IsUtf8(s) <==> exists text: seq<Scalar> :: Characters(text) == s
  {
    hide IsUtf8, Characters;
    if IsUtf8(s) {
      var text := Utf8IsCharacters(s);
    }
    if text: seq<Scalar> :| Characters(text) == s {
      CharactersAreUtf8(text);
    }
  }
}
