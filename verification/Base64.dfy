/** Standard base64 with padding (`src/json.rs`, section 4 of RFC 4648). */
module Base64 {
  import opened Values
  import opened Powers

  const PAD: byte := 61

  /** The symbol of six bits, as its ASCII code. */
  function Symbol(v: nat): (c: byte)
    requires v < 64
  {
    if v < 26 then 65 + v else if v < 52 then 71 + v else if v < 62 then v - 4 else if v == 62 then 43 else 47
  }

  function ValueOf(c: byte): (v: Option<nat>)
    ensures v.Some? ==> v.value < 64 && Symbol(v.value) == c
  {
    if 65 <= c <= 90 then Some(c - 65)
    else if 97 <= c <= 122 then Some(c - 71)
    else if 48 <= c <= 57 then Some(c + 4)
    else if c == 43 then Some(62)
    else if c == 47 then Some(63)
    else None
  }

  lemma SymbolBack(v: nat)
    requires v < 64
    ensures ValueOf(Symbol(v)) == Some(v) && Symbol(v) != PAD
  {
  }

  /** The alphabet: capital letters, small letters, digits, plus and slash. */
  lemma AlphabetIs(v: nat)
    requires v < 64
    ensures v < 26 ==> Symbol(v) as char == 'A' + v as char
    ensures 26 <= v < 52 ==> Symbol(v) as char == 'a' + (v - 26) as char
    ensures 52 <= v < 62 ==> Symbol(v) as char == '0' + (v - 52) as char
    ensures Symbol(62) as char == '+' && Symbol(63) as char == '/' && PAD as char == '='
  {
  }

  /** The `i`th six bits of 24. */
  function Six(n: nat, i: nat): (v: nat)
    requires i < 4
    ensures v < 64
  {
    if i == 0 then n / 262_144 % 64 else if i == 1 then n / 4096 % 64 else if i == 2 then n / 64 % 64 else n % 64
  }

  function Number(a: byte, b: byte, c: byte): (n: nat)
    ensures n < 16_777_216
  {
    65_536 * a + 256 * b + c
  }

  function ByteOr0(chunk: seq<byte>, i: nat): (b: byte) {
    if i < |chunk| then chunk[i] else 0
  }

  /** One to three bytes as four symbols. */
  function EncodeChunk(chunk: seq<byte>): (text: seq<byte>)
    requires 1 <= |chunk| <= 3
    ensures |text| == 4
  {
    var n := Number(ByteOr0(chunk, 0), ByteOr0(chunk, 1), ByteOr0(chunk, 2));
    seq(4, i requires 0 <= i < 4 => if i <= |chunk| then Symbol(Six(n, i)) else PAD)
  }

  function Encode(bytes: seq<byte>): (text: seq<byte>)
    ensures |text| % 4 == 0 && (bytes != [] ==> |text| >= 4)
  {
    if bytes == [] then []
    else if |bytes| <= 3 then EncodeChunk(bytes)
    else EncodeChunk(bytes[..3]) + Encode(bytes[3..])
  }

  /** `base64_encode`, into a buffer. */
  method EncodeText(bytes: seq<byte>) returns (out: seq<byte>)
    ensures out == Encode(bytes)
  {
    out := [];
    var at := 0;
    while at < |bytes|
      invariant at <= |bytes| && Encode(bytes) == out + Encode(bytes[at..])
    {
      hide EncodeChunk;
      var rest := bytes[at..];
      var take := if |rest| < 3 then |rest| else 3;
      assert rest[..|rest|] == rest;
      assert |rest| <= 3 ==> rest[take..] == [];
      assert bytes[at + take..] == rest[take..];
      out := out + EncodeChunk(rest[..take]);
      at := at + take;
    }
    assert bytes[at..] == [];
  }

  /** How many of four symbols are padding, from the end. */
  function Padding(chunk: seq<byte>): (n: nat)
    requires |chunk| == 4
    ensures n <= 4
  {
    if chunk[3] != PAD then 0 else if chunk[2] != PAD then 1 else if chunk[1] != PAD then 2 else if chunk[0] != PAD then 3 else 4
  }

  /** The bits of symbols, most significant first. */
  function Gather(symbols: seq<byte>): (n: Option<nat>) {
    if symbols == [] then Some(0)
    else
      var last := |symbols| - 1;
      var before, v := Gather(symbols[..last]), ValueOf(symbols[last]);
      if before.None? || v.None? then None else Some(before.value * 64 + v.value)
  }

  function DecodeChunk(chunk: seq<byte>, last: bool): (bytes: Option<seq<byte>>)
    requires |chunk| == 4
  {
    var padding := Padding(chunk);
    if padding > 2 || (padding > 0 && !last) then None
    else
      var gathered := Gather(chunk[..4 - padding]);
      if gathered.None? then None
      else
        var n := gathered.value * (if padding == 0 then 1 else if padding == 1 then 64 else 4096);
        Some([n / 65_536 % 256, n / 256 % 256, n % 256][..3 - padding])
  }

  function Decode(text: seq<byte>): (bytes: Option<seq<byte>>) {
    if |text| % 4 != 0 then None
    else if text == [] then Some([])
    else
      var first, rest := DecodeChunk(text[..4], |text| == 4), Decode(text[4..]);
      if first.None? || rest.None? then None else Some(first.value + rest.value)
  }

  lemma SixesBack(n: nat)
    requires n < 16_777_216
    ensures ((Six(n, 0) * 64 + Six(n, 1)) * 64 + Six(n, 2)) * 64 + Six(n, 3) == n
  {
    var a, q := n % 64, n / 64;
    var b, r := q % 64, q / 64;
    var c, d := r % 64, r / 64;
    QuotientIs(n, 4096, r, 64 * b + a);
    QuotientIs(n, 262_144, d, 4096 * c + 64 * b + a);
    assert d < 64;
  }

  lemma NumberBack(a: byte, b: byte, c: byte)
    ensures var n := Number(a, b, c); n / 65_536 % 256 == a && n / 256 % 256 == b && n % 256 == c
  {
    var n := Number(a, b, c);
    QuotientIs(n, 65_536, a, 256 * b + c);
    QuotientIs(n, 256, 256 * a + b, c);
    QuotientIs(256 * a + b, 256, a, b);
  }

  lemma GatherFour(a: nat, b: nat, c: nat, d: nat)
    requires a < 64 && b < 64 && c < 64 && d < 64
    ensures Gather([Symbol(a), Symbol(b)]) == Some(a * 64 + b)
    ensures Gather([Symbol(a), Symbol(b), Symbol(c)]) == Some((a * 64 + b) * 64 + c)
    ensures Gather([Symbol(a), Symbol(b), Symbol(c), Symbol(d)]) == Some(((a * 64 + b) * 64 + c) * 64 + d)
  {
    var (w, x, y, z) := (Symbol(a), Symbol(b), Symbol(c), Symbol(d));
    SymbolBack(a);
    SymbolBack(b);
    SymbolBack(c);
    SymbolBack(d);
    hide Symbol, ValueOf;
    assert [w][..0] == [] && Gather([w]) == Some(a);
    assert [w, x][..1] == [w] && Gather([w, x]) == Some(a * 64 + b);
    assert [w, x, y][..2] == [w, x] && [w, x, y, z][..3] == [w, x, y];
  }

  /** Of the bits of missing bytes none is lost: they are zero. */
  lemma ZeroSixes(n: nat)
    requires n < 16_777_216
    ensures n % 256 == 0 ==> Six(n, 3) == 0
    ensures n % 65_536 == 0 ==> Six(n, 3) == 0 && Six(n, 2) == 0
  {
    if n % 256 == 0 { var q := n / 256; assert n == 64 * (4 * q); }
    if n % 65_536 == 0 {
      var q := n / 65_536;
      assert n == 64 * (1024 * q);
      QuotientIs(n, 64, 1024 * q, 0);
      assert 1024 * q == 64 * (16 * q);
    }
  }

  /** Symbols, the last `padding` of four left out, give the bytes of a number. */
  lemma SymbolsBack(n: nat, padding: nat)
    requires n < 16_777_216 && padding <= 2
    requires padding == 1 ==> n % 256 == 0
    requires padding == 2 ==> n % 65_536 == 0
    ensures var text := [Symbol(Six(n, 0)), Symbol(Six(n, 1)),
                         if padding == 2 then PAD else Symbol(Six(n, 2)), if padding > 0 then PAD else Symbol(Six(n, 3))];
            DecodeChunk(text, true) == Some([n / 65_536 % 256, n / 256 % 256, n % 256][..3 - padding])
            && (padding == 0 ==> DecodeChunk(text, false) == DecodeChunk(text, true))
  {
    var (w, x, y, z) := (Six(n, 0), Six(n, 1), Six(n, 2), Six(n, 3));
    SixesBack(n);
    ZeroSixes(n);
    GatherFour(w, x, y, z);
    SymbolBack(w);
    SymbolBack(x);
    SymbolBack(y);
    SymbolBack(z);
    hide Six, Symbol, ValueOf, Gather;
    var (p, q, r, s) := (Symbol(w), Symbol(x), Symbol(y), Symbol(z));
    assert [p, q, r, s][..4] == [p, q, r, s] && [p, q, r, PAD][..3] == [p, q, r] && [p, q, PAD, PAD][..2] == [p, q];
  }

  /** Four symbols give their bytes back. */
  lemma ChunkBack(chunk: seq<byte>, last: bool)
    requires 1 <= |chunk| <= 3 && (|chunk| < 3 ==> last)
    ensures DecodeChunk(EncodeChunk(chunk), last) == Some(chunk)
  {
    var (a, b, c) := (ByteOr0(chunk, 0), ByteOr0(chunk, 1), ByteOr0(chunk, 2));
    var n := Number(a, b, c);
    NumberBack(a, b, c);
    assert |chunk| == 1 ==> n % 65_536 == 0;
    SymbolsBack(n, 3 - |chunk|);
    assert [a, b, c][..|chunk|] == chunk;
    hide Six, Symbol, DecodeChunk, Number;
    assert EncodeChunk(chunk) == [Symbol(Six(n, 0)), Symbol(Six(n, 1)), if |chunk| == 1 then PAD else Symbol(Six(n, 2)),
                                  if |chunk| < 3 then PAD else Symbol(Six(n, 3))];
  }

  /** Decoding what was encoded gives it back. */
  lemma {:induction false} RoundTrip(bytes: seq<byte>)
    ensures Decode(Encode(bytes)) == Some(bytes)
  {
    hide DecodeChunk, EncodeChunk;
    if bytes != [] {
      var text := Encode(bytes);
      if |bytes| <= 3 {
        ChunkBack(bytes, true);
        assert text[..4] == text && text[4..] == [];
        assert bytes + [] == bytes;
      } else {
        ChunkBack(bytes[..3], false);
        RoundTrip(bytes[3..]);
        assert text[..4] == EncodeChunk(bytes[..3]) && text[4..] == Encode(bytes[3..]);
        assert bytes == bytes[..3] + bytes[3..];
      }
    }
  }

  function After(out: seq<byte>, rest: Option<seq<byte>>): (all: Option<seq<byte>>) {
    if rest.None? then None else Some(out + rest.value)
  }

  lemma AfterNothing(rest: Option<seq<byte>>)
    ensures After([], rest) == rest
  {
    if rest.Some? { assert [] + rest.value == rest.value; }
  }

  lemma AfterMore(out: seq<byte>, more: seq<byte>, rest: Option<seq<byte>>)
    ensures After(out, After(more, rest)) == After(out + more, rest)
  {
    if rest.Some? { assert out + (more + rest.value) == out + more + rest.value; }
  }

  /** `base64_decode`, four symbols at a time. */
  method DecodeText(text: seq<byte>) returns (bytes: Option<seq<byte>>)
    ensures bytes == Decode(text)
  {
    hide DecodeChunk;
    if |text| % 4 != 0 {
      return None;
    }
    var out: seq<byte> := [];
    var at := 0;
    assert text[0..] == text;
    AfterNothing(Decode(text));
    while at < |text|
      invariant at <= |text| && at % 4 == 0
      invariant Decode(text) == After(out, Decode(text[at..]))
    {
      var chunk := DecodeChunk(text[at..at + 4], at + 4 == |text|);
      assert text[at..][..4] == text[at..at + 4] && text[at..][4..] == text[at + 4..];
      if chunk.None? {
        return None;
      }
      AfterMore(out, chunk.value, Decode(text[at + 4..]));
      out := out + chunk.value;
      at := at + 4;
    }
    assert text[at..] == [] && out + [] == out;
    bytes := Some(out);
  }

  /** Texts as section 10 of RFC 4648 has them, and one with the last two symbols. */
  lemma KnownTexts()
    ensures Encode([102, 111, 111, 98, 97, 114]) == [90, 109, 57, 118, 89, 109, 70, 121] // foobar: Zm9vYmFy
    ensures Encode([102]) == [90, 103, 61, 61] // f: Zg==
    ensures Encode([102, 111]) == [90, 109, 56, 61] // fo: Zm8=
    ensures Encode([0xFB, 0xFF]) == [43, 47, 56, 61] // +/8=
  {
    var text := [102, 111, 111, 98, 97, 114];
    assert text[..3] == [102, 111, 111] && text[3..] == [98, 97, 114];
    Foo();
    Bar();
    OneAndTwo();
    LastTwo();
    hide EncodeChunk;
  }

  lemma SixesAre(n: nat, a: nat, b: nat, c: nat, d: nat)
    requires a < 64 && b < 64 && c < 64 && d < 64 && n == ((a * 64 + b) * 64 + c) * 64 + d
    ensures Six(n, 0) == a && Six(n, 1) == b && Six(n, 2) == c && Six(n, 3) == d
  {
    QuotientIs(n, 64, (a * 64 + b) * 64 + c, d);
    QuotientIs(n, 4096, a * 64 + b, c * 64 + d);
    QuotientIs(n, 262_144, a, (b * 64 + c) * 64 + d);
    QuotientIs((a * 64 + b) * 64 + c, 64, a * 64 + b, c);
    QuotientIs(a * 64 + b, 64, a, b);
  }

  lemma Foo()
    ensures EncodeChunk([102, 111, 111]) == [90, 109, 57, 118]
  {
    SixesAre(6_713_199, 25, 38, 61, 47);
    hide Six;
  }

  lemma Bar()
    ensures EncodeChunk([98, 97, 114]) == [89, 109, 70, 121]
  {
    SixesAre(6_447_474, 24, 38, 5, 50);
    hide Six;
  }

  lemma OneAndTwo()
    ensures EncodeChunk([102]) == [90, 103, 61, 61] && EncodeChunk([102, 111]) == [90, 109, 56, 61]
  {
    SixesAre(6_684_672, 25, 32, 0, 0);
    SixesAre(6_713_088, 25, 38, 60, 0);
    hide Six;
  }

  lemma LastTwo()
    ensures EncodeChunk([0xFB, 0xFF]) == [43, 47, 56, 61]
  {
    SixesAre(16_514_816, 62, 63, 60, 0);
    hide Six;
  }
}
