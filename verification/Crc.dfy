/** CRC-32C (`src/crc32.rs`): eight bytes a step through tables, against the
    definition one bit at a time (section 12.1 of RFC 3720). A word is its 32 bits,
    a byte its 8, least significant first. */
module Crc {
  import Values

  type Word = w: seq<bool> | |w| == 32 witness seq(32, _ => false)
  type Byte = b: seq<bool> | |b| == 8 witness seq(8, _ => false)

  /** `n` zero bits. */
  function Zeros(n: nat): (z: seq<bool>)
    ensures |z| == n && forall i :: 0 <= i < n ==> !z[i]
  {
    seq(n, _ => false)
  }

  /** The Castagnoli polynomial 0x82F63B78, bit-reversed. */
  const POLYNOMIAL: Word := [
    false, false, false, true, true, true, true, false, // 78
    true, true, false, true, true, true, false, false,  // 3B
    false, true, true, false, true, true, true, true,   // F6
    false, true, false, false, false, false, false, true // 82
  ]

  function Xor(a: Word, b: Word): (r: Word)
    ensures forall i :: 0 <= i < 32 ==> r[i] == (a[i] != b[i])
  {
    seq(32, i requires 0 <= i < 32 => a[i] != b[i])
  }

  /** `w >> n`. */
  function Down(w: Word, n: nat): (r: Word)
    requires n <= 32
  {
    w[n..] + Zeros(n)
  }

  function Shift(crc: Word): (r: Word) {
    Xor(Down(crc, 1), if crc[0] then POLYNOMIAL else Zeros(32))
  }

  function Times(x: Word, n: nat): (r: Word) {
    if n == 0 then x else Shift(Times(x, n - 1))
  }

  function Wide(b: Byte): (w: Word) {
    b + Zeros(24)
  }

  /** The definition: a byte at a time, and each a bit at a time. */
  function Bitwise(crc: Word, bytes: seq<Byte>): (r: Word)
    decreases |bytes|
  {
    if bytes == [] then crc else Bitwise(Times(Xor(crc, Wide(bytes[0])), 8), bytes[1..])
  }

  // -------------------------------------------------------------------- the algebra

  lemma XorLaws(a: Word, b: Word, c: Word)
    ensures Xor(a, b) == Xor(b, a) && Xor(Xor(a, b), c) == Xor(a, Xor(b, c)) && Xor(a, Zeros(32)) == a
    ensures Xor(a, a) == Zeros(32)
  {
  }

  lemma DownXor(a: Word, b: Word, n: nat)
    requires n <= 32
    ensures Down(Xor(a, b), n) == Xor(Down(a, n), Down(b, n))
  {
  }

  /** A shift of a sum is the sum of the shifts. */
  lemma ShiftIsLinear(a: Word, b: Word)
    ensures Shift(Xor(a, b)) == Xor(Shift(a), Shift(b))
  {
    DownXor(a, b, 1);
    var x, y, p, z := Down(a, 1), Down(b, 1), POLYNOMIAL, Zeros(32);
    hide Down, Xor;
    assert Xor(Xor(x, y), z) == Xor(Xor(x, z), Xor(y, z)) by { XorLaws(x, y, z); XorLaws(x, z, y); XorLaws(y, z, x); XorLaws(Xor(x, y), z, z); }
    Around(x, y, p, z);
  }

  lemma Around(x: Word, y: Word, p: Word, z: Word)
    requires z == Zeros(32)
    ensures Xor(Xor(x, y), p) == Xor(Xor(x, p), Xor(y, z)) && Xor(Xor(x, y), p) == Xor(Xor(x, z), Xor(y, p))
    ensures Xor(Xor(x, y), z) == Xor(Xor(x, p), Xor(y, p))
  {
  }

  lemma {:induction false} TimesIsLinear(a: Word, b: Word, n: nat)
    ensures Times(Xor(a, b), n) == Xor(Times(a, n), Times(b, n))
  {
    hide Shift, Xor;
    if n > 0 {
      TimesIsLinear(a, b, n - 1);
      ShiftIsLinear(Times(a, n - 1), Times(b, n - 1));
    }
  }

  lemma {:induction false} TimesAdds(x: Word, m: nat, n: nat)
    ensures Times(Times(x, m), n) == Times(x, m + n)
  {
    hide Shift;
    if n > 0 { TimesAdds(x, m, n - 1); }
  }

  lemma TimesMore(x: Word, n: nat)
    requires n > 0
    ensures Times(x, n) == Shift(Times(x, n - 1))
  {
  }

  /** Zero bits go by without a trace. */
  lemma {:induction false} ZeroBits(x: Word, n: nat)
    requires n <= 32 && forall i :: 0 <= i < n ==> !x[i]
    ensures Times(x, n) == Down(x, n)
  {
    if n == 0 {
      assert Down(x, 0) == x;
    } else {
      ZeroBits(x, n - 1);
      hide Xor, Times;
      assert Times(x, n) == Shift(Times(x, n - 1)) by { TimesMore(x, n); }
      var y := Down(x, n - 1);
      assert y[0] == x[n - 1];
      XorLaws(Down(y, 1), y, y);
      assert Down(y, 1) == Down(x, n);
    }
  }

  /** A byte `k` bytes up in a word. */
  function Place(b: Byte, k: nat): (w: Word)
    requires k < 4
  {
    Zeros(8 * k) + b + Zeros(24 - 8 * k)
  }

  /** A byte with zero bytes below it comes out after them. */
  lemma HighByte(b: Byte, k: nat)
    requires k < 4
    ensures Times(Place(b, k), 8 * k) == Wide(b)
  {
    hide Times;
    ZeroBits(Place(b, k), 8 * k);
    assert Down(Place(b, k), 8 * k) == Wide(b);
  }

  function Low(x: Word): (b: Byte) {
    x[..8]
  }

  /** A byte's eight shifts, by a look at its low byte alone. */
  lemma ByteStep(x: Word)
    ensures Times(x, 8) == Xor(Down(x, 8), Times(Wide(Low(x)), 8))
  {
    hide Times;
    var high: Word := Zeros(8) + x[8..];
    assert Xor(high, Wide(Low(x))) == x;
    ZeroBits(high, 8);
    assert Down(high, 8) == Down(x, 8);
    hide Xor, Down, Wide;
    TimesIsLinear(high, Wide(Low(x)), 8);
  }

  // --------------------------------------------------------------------- four bytes

  /** `u32::from_le_bytes`. */
  function Little(a: Byte, b: Byte, c: Byte, d: Byte): (w: Word) {
    a + b + c + d
  }

  lemma LittleIs(a: Byte, b: Byte, c: Byte, d: Byte)
    ensures Little(a, b, c, d) == Xor(Xor(Xor(Wide(a), Place(b, 1)), Place(c, 2)), Place(d, 3))
  {
  }

  /** One more byte, `n` bits on. */
  lemma NextByte(x: Word, b: Byte, n: nat, place: Word)
    requires Times(place, n) == Wide(b)
    ensures Xor(Times(x, n), Wide(b)) == Times(Xor(x, place), n)
  {
    hide Times, Wide, Xor;
    TimesIsLinear(x, place, n);
  }

  lemma FourBytes(crc: Word, a: Byte, b: Byte, c: Byte, d: Byte)
    ensures Bitwise(crc, [a, b, c, d]) == Times(Xor(crc, Little(a, b, c, d)), 32)
  {
    hide *;
    OneByOne(crc, a, b, c, d);
    LittleIs(a, b, c, d);
    HighByte(b, 1);
    HighByte(c, 2);
    HighByte(d, 3);
    var x := Xor(crc, Wide(a));
    NextByte(x, b, 8, Place(b, 1));
    var y := Xor(x, Place(b, 1));
    TimesAdds(y, 8, 8);
    NextByte(y, c, 16, Place(c, 2));
    var z := Xor(y, Place(c, 2));
    TimesAdds(z, 16, 8);
    NextByte(z, d, 24, Place(d, 3));
    TimesAdds(Xor(z, Place(d, 3)), 24, 8);
    XorChain(crc, Wide(a), Place(b, 1), Place(c, 2), Place(d, 3));
  }

  lemma XorChain(x: Word, a: Word, b: Word, c: Word, d: Word)
    ensures Xor(x, Xor(Xor(Xor(a, b), c), d)) == Xor(Xor(Xor(Xor(x, a), b), c), d)
  {
    hide Xor;
    XorLaws(x, Xor(Xor(a, b), c), d);
    XorLaws(x, Xor(a, b), c);
    XorLaws(x, a, b);
  }

  lemma OneByOne(crc: Word, a: Byte, b: Byte, c: Byte, d: Byte)
    ensures Bitwise(crc, [a, b, c, d])
         == Times(Xor(Times(Xor(Times(Xor(Times(Xor(crc, Wide(a)), 8), Wide(b)), 8), Wide(c)), 8), Wide(d)), 8)
  {
    hide Times, Wide, Xor;
    var w := Times(Xor(crc, Wide(a)), 8);
    assert [a, b, c, d][1..] == [b, c, d];
    assert Bitwise(crc, [a, b, c, d]) == Bitwise(w, [b, c, d]);
    var x := Times(Xor(w, Wide(b)), 8);
    assert [b, c, d][1..] == [c, d];
    assert Bitwise(w, [b, c, d]) == Bitwise(x, [c, d]);
    var y := Times(Xor(x, Wide(c)), 8);
    assert [c, d][1..] == [d];
    assert Bitwise(x, [c, d]) == Bitwise(y, [d]);
    assert [d][1..] == [];
    assert Bitwise(y, [d]) == Bitwise(Times(Xor(y, Wide(d)), 8), []);
  }

  // ---------------------------------------------------------------------- the tables

  /** A byte as a number, and back. */
  function Number(bits: seq<bool>): (n: nat) {
    if bits == [] then 0 else (if bits[0] then 1 else 0) + 2 * Number(bits[1..])
  }

  function BitsOf(n: nat, count: nat): (bits: seq<bool>)
    ensures |bits| == count
  {
    if count == 0 then [] else [n % 2 == 1] + BitsOf(n / 2, count - 1)
  }

  lemma {:induction false} NumberIsBounded(bits: seq<bool>)
    ensures Number(bits) < Values.Pow2(|bits|)
  {
    if bits != [] { NumberIsBounded(bits[1..]); }
  }

  lemma {:induction false} BitsBack(bits: seq<bool>)
    ensures BitsOf(Number(bits), |bits|) == bits
  {
    if bits != [] {
      BitsBack(bits[1..]);
      assert Number(bits) / 2 == Number(bits[1..]);
      assert bits == [bits[0]] + bits[1..];
    }
  }

  function Index(b: Byte): (n: nat)
    ensures n < 256 && BitsOf(n, 8) == b
  {
    NumberIsBounded(b);
    BitsBack(b);
    Number(b)
  }

  /** `TABLES[k][n]`: the byte `n` followed by `k` zero bytes. */
  function Entry(k: nat, n: nat): (w: Word) {
    Times(Wide(BitsOf(n, 8)), 8 * (k + 1))
  }

  ghost predicate IsTable(t: array2<Word>)
    reads t
  {
    t.Length0 == 8 && t.Length1 == 256 && forall k, n :: 0 <= k < 8 && 0 <= n < 256 ==> t[k, n] == Entry(k, n)
  }

  /** `tables`: the first by bits, the others each from the one before. */
  method Tables() returns (t: array2<Word>)
    ensures IsTable(t) && fresh(t)
  {
    t := new Word[8, 256]((_, _) => Zeros(32));
    hide *;
    FillFirst(t);
    FillRest(t);
    IsWhole(t);
  }

  lemma IsWhole(t: array2<Word>)
    requires t.Length0 == 8 && t.Length1 == 256 && forall j :: 0 <= j < 256 ==> Column(t, j)
    ensures IsTable(t)
  {
    hide Entry;
    forall k, n | 0 <= k < 8 && 0 <= n < 256 ensures t[k, n] == Entry(k, n) {
      assert Column(t, n);
    }
  }

  ghost predicate Column(t: array2<Word>, n: nat)
    requires t.Length0 == 8 && t.Length1 == 256
    reads t
  {
    n < 256 && forall k :: 0 <= k < 8 ==> t[k, n] == Entry(k, n)
  }

  ghost predicate FirstRow(t: array2<Word>, n: nat)
    requires t.Length0 == 8 && t.Length1 == 256 && n <= 256
    reads t
  {
    forall j :: 0 <= j < n ==> t[0, j] == Entry(0, j)
  }

  method FillFirst(t: array2<Word>)
    requires t.Length0 == 8 && t.Length1 == 256
    modifies t
    ensures FirstRow(t, 256)
  {
    hide Entry;
    for n := 0 to 256
      invariant FirstRow(t, n)
    {
      var crc := ByBits(n);
      t[0, n] := crc;
    }
  }

  method FillRest(t: array2<Word>)
    requires t.Length0 == 8 && t.Length1 == 256 && FirstRow(t, 256)
    modifies t
    ensures forall j :: 0 <= j < 256 ==> Column(t, j)
  {
    for n := 0 to 256
      invariant FirstRow(t, 256) && forall j :: 0 <= j < n ==> Column(t, j)
    {
      hide Entry;
      FillOthers(t, n);
    }
  }

  method ByBits(n: nat) returns (crc: Word)
    requires n < 256
    ensures crc == Entry(0, n)
  {
    hide Shift;
    crc := Wide(BitsOf(n, 8));
    for bit := 0 to 8
      invariant crc == Times(Wide(BitsOf(n, 8)), bit)
    {
      hide Wide;
      crc := Shift(crc);
    }
  }

  method FillOthers(t: array2<Word>, n: nat)
    requires t.Length0 == 8 && t.Length1 == 256 && n < 256 && FirstRow(t, 256)
    modifies t
    ensures FirstRow(t, 256) && Column(t, n)
    ensures forall j :: 0 <= j < n && old(Column(t, j)) ==> Column(t, j)
  {
    hide Entry, Xor, Down, Index;
    ghost var others := set j | 0 <= j < n && Column(t, j);
    for k := 1 to 8
      invariant FirstRow(t, 256) && forall m :: 0 <= m < k ==> t[m, n] == Entry(m, n)
      invariant forall j <- others :: j != n && Column(t, j)
    {
      var previous := t[k - 1, n];
      NextEntry(k, n);
      t[k, n] := Xor(Down(previous, 8), t[0, Index(Low(previous))]);
    }
  }

  /** A table's entry from the one before. */
  lemma NextEntry(k: nat, n: nat)
    requires k > 0
    ensures Entry(k, n) == Xor(Down(Entry(k - 1, n), 8), Entry(0, Index(Low(Entry(k - 1, n)))))
  {
    hide Times, Xor, Down, Wide, Index;
    TimesAdds(Wide(BitsOf(n, 8)), 8 * k, 8);
    ByteStep(Entry(k - 1, n));
  }

  // ------------------------------------------------------------------- eight bytes

  lemma {:induction false} BitwiseJoins(crc: Word, a: seq<Byte>, b: seq<Byte>)
    ensures Bitwise(crc, a + b) == Bitwise(Bitwise(crc, a), b)
    decreases |a|
  {
    hide Times, Xor, Wide;
    if a == [] {
      assert a + b == b;
    } else {
      assert (a + b)[1..] == a[1..] + b;
      BitwiseJoins(Times(Xor(crc, Wide(a[0])), 8), a[1..], b);
    }
  }

  /** The byte of a word `k` bytes up. */
  function ByteAt(w: Word, k: nat): (b: Byte)
    requires k < 4
  {
    w[8 * k..8 * k + 8]
  }

  lemma WordIs(w: Word)
    ensures w == Little(ByteAt(w, 0), ByteAt(w, 1), ByteAt(w, 2), ByteAt(w, 3))
  {
  }

  /** What a byte of a word comes to, `n` bytes on. */
  lemma PlaceEntry(b: Byte, k: nat, n: nat)
    requires k < 4 && k < n
    ensures Times(Place(b, k), 8 * n) == Entry(n - 1 - k, Index(b))
  {
    hide Times, Place, Wide;
    HighByte(b, k);
    TimesAdds(Place(b, k), 8 * k, 8 * (n - k));
  }

  /** A word's bytes, each from its own table. */
  lemma WordByTables(w: Word, n: nat)
    requires n >= 4
    ensures Times(w, 8 * n)
         == Xor(Xor(Xor(Entry(n - 1, Index(ByteAt(w, 0))), Entry(n - 2, Index(ByteAt(w, 1)))),
                    Entry(n - 3, Index(ByteAt(w, 2)))), Entry(n - 4, Index(ByteAt(w, 3))))
  {
    hide *;
    WordIs(w);
    var (a, b, c, d) := (ByteAt(w, 0), ByteAt(w, 1), ByteAt(w, 2), ByteAt(w, 3));
    LittleIs(a, b, c, d);
    var x := Xor(Wide(a), Place(b, 1));
    var y := Xor(x, Place(c, 2));
    TimesIsLinear(y, Place(d, 3), 8 * n);
    TimesIsLinear(x, Place(c, 2), 8 * n);
    TimesIsLinear(Wide(a), Place(b, 1), 8 * n);
    WideIsPlace(a);
    PlaceEntry(a, 0, n);
    PlaceEntry(b, 1, n);
    PlaceEntry(c, 2, n);
    PlaceEntry(d, 3, n);
  }

  lemma WideIsPlace(b: Byte)
    ensures Place(b, 0) == Wide(b)
  {
  }

  /** Eight bytes at once. */
  lemma EightBytes(crc: Word, c: seq<Byte>)
    requires |c| == 8
    ensures Bitwise(crc, c)
         == Xor(Times(Xor(Little(c[0], c[1], c[2], c[3]), crc), 64), Times(Little(c[4], c[5], c[6], c[7]), 32))
  {
    var low, high := Little(c[0], c[1], c[2], c[3]), Little(c[4], c[5], c[6], c[7]);
    assert c == [c[0], c[1], c[2], c[3]] + [c[4], c[5], c[6], c[7]];
    hide *;
    BitwiseJoins(crc, [c[0], c[1], c[2], c[3]], [c[4], c[5], c[6], c[7]]);
    FourBytes(crc, c[0], c[1], c[2], c[3]);
    XorLaws(low, crc, crc);
    var x := Times(Xor(low, crc), 32);
    FourBytes(x, c[4], c[5], c[6], c[7]);
    TimesIsLinear(x, high, 32);
    TimesAdds(Xor(low, crc), 32, 32);
  }

  /** `update_table`: eight bytes a step, then the rest one by one, is the
      definition, from every starting value and for every byte string. */
  method UpdateTable(t: array2<Word>, start: Word, bytes: seq<Byte>) returns (crc: Word)
    requires IsTable(t)
    ensures crc == Bitwise(start, bytes)
  {
    hide Xor, Down, Times, Low, Index, Entry, IsTable, Wide, Bitwise;
    crc := start;
    var chunks := |bytes| / 8;
    assert bytes[0..] == bytes;
    for i := 0 to chunks
      invariant Bitwise(start, bytes) == Bitwise(crc, bytes[8 * i..])
    {
      var chunk := bytes[8 * i..8 * i + 8];
      assert bytes[8 * i..] == chunk + bytes[8 * (i + 1)..];
      BitwiseJoins(crc, chunk, bytes[8 * (i + 1)..]);
      crc := Chunk(t, crc, chunk);
    }
    for i := 8 * chunks to |bytes|
      invariant Bitwise(start, bytes) == Bitwise(crc, bytes[i..])
    {
      assert bytes[i..] == [bytes[i]] + bytes[i + 1..];
      BitwiseJoins(crc, [bytes[i]], bytes[i + 1..]);
      crc := One(t, crc, bytes[i]);
    }
    BitwiseNone(crc, bytes[|bytes|..]);
  }

  lemma BitwiseNone(crc: Word, bytes: seq<Byte>)
    requires bytes == []
    ensures Bitwise(crc, bytes) == crc
  {
  }

  method One(t: array2<Word>, start: Word, b: Byte) returns (crc: Word)
    requires IsTable(t)
    ensures crc == Bitwise(start, [b])
  {
    hide Xor, Down, Times, Low, Index, Entry, Wide;
    RestByte(start, b);
    assert [b][1..] == [];
    crc := Xor(Down(start, 8), t[0, Index(Low(Xor(start, Wide(b))))]);
  }

  method Chunk(t: array2<Word>, start: Word, c: seq<Byte>) returns (crc: Word)
    requires IsTable(t) && |c| == 8
    ensures crc == Bitwise(start, c)
  {
    hide Xor, Times, Entry, Little, Bitwise, Index, ByteAt;
    var low := Xor(Little(c[0], c[1], c[2], c[3]), start);
    var high := Little(c[4], c[5], c[6], c[7]);
    var l := Xor(Xor(Xor(t[7, Index(ByteAt(low, 0))], t[6, Index(ByteAt(low, 1))]), t[5, Index(ByteAt(low, 2))]),
                 t[4, Index(ByteAt(low, 3))]);
    crc := Xor(Xor(Xor(Xor(l, t[3, Index(ByteAt(high, 0))]), t[2, Index(ByteAt(high, 1))]), t[1, Index(ByteAt(high, 2))]),
               t[0, Index(ByteAt(high, 3))]);
    EightBytes(start, c);
    WordByTables(low, 8);
    WordByTables(high, 4);
    XorChain(l, t[3, Index(ByteAt(high, 0))], t[2, Index(ByteAt(high, 1))], t[1, Index(ByteAt(high, 2))],
             t[0, Index(ByteAt(high, 3))]);
  }

  /** One byte by the first table: the bits above it are only moved down. */
  lemma RestByte(crc: Word, b: Byte)
    ensures Times(Xor(crc, Wide(b)), 8) == Xor(Down(crc, 8), Entry(0, Index(Low(Xor(crc, Wide(b))))))
  {
    hide Times;
    var x := Xor(crc, Wide(b));
    ByteStep(x);
    DownXor(crc, Wide(b), 8);
    assert Down(Wide(b), 8) == Zeros(32);
    XorLaws(Down(crc, 8), crc, crc);
    hide Xor, Down, Wide;
  }

  // ------------------------------------------------------------------- in pieces

  function Not(w: Word): (r: Word) {
    seq(32, i requires 0 <= i < 32 => !w[i])
  }

  function Ones(): (w: Word) {
    Not(Zeros(32))
  }

  /** The CRC of some bytes, by the definition. */
  function CrcOf(bytes: seq<Byte>): (r: Word) {
    Not(Bitwise(Ones(), bytes))
  }

  class Crc32 {
    var crc: Word
    const tables: array2<Word>
    ghost var bytes: seq<Byte>

    ghost predicate Valid()
      reads this, tables
    {
      IsTable(tables) && crc == Bitwise(Ones(), bytes)
    }

    constructor (t: array2<Word>)
      requires IsTable(t)
      ensures Valid() && bytes == [] && tables == t
    {
      crc, tables, bytes := Ones(), t, [];
    }

    /** A piece more, as if it were all one. */
    method Update(piece: seq<Byte>)
      requires Valid()
      modifies this
      ensures Valid() && bytes == old(bytes) + piece
    {
      hide Bitwise;
      crc := UpdateTable(tables, crc, piece);
      BitwiseJoins(Ones(), bytes, piece);
      bytes := bytes + piece;
    }

    method Finish() returns (r: Word)
      requires Valid()
      ensures r == CrcOf(bytes)
    {
      hide Bitwise;
      r := Not(crc);
    }
  }

  function Joined(pieces: seq<seq<Byte>>): (bytes: seq<Byte>) {
    if pieces == [] then [] else Joined(pieces[..|pieces| - 1]) + pieces[|pieces| - 1]
  }

  /** However the bytes are cut into pieces, the CRC is that of the whole. */
  method CrcOfPieces(pieces: seq<seq<Byte>>) returns (r: Word)
    ensures r == CrcOf(Joined(pieces))
  {
    var t := Tables();
    var crc := new Crc32(t);
    assert pieces[..0] == [];
    for i := 0 to |pieces|
      invariant crc.Valid() && fresh(crc) && crc.bytes == Joined(pieces[..i])
    {
      hide Bitwise, IsTable;
      crc.Update(pieces[i]);
      assert pieces[..i + 1][..i] == pieces[..i];
    }
    assert pieces[..|pieces|] == pieces;
    r := crc.Finish();
  }
}
