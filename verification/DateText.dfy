/** The text of a point in time (`src/datetime.rs`): RFC 3339 in UTC, its years
    expanded past 9999, and its parser. */
module DateText {
  import opened Values
  import opened Calendar

  // ----------------------------------------------------------------------- digits

  function Digit(d: nat): (c: char)
    requires d < 10
  {
    "0123456789"[d]
  }

  predicate IsDigit(c: char) {
    '0' <= c <= '9'
  }

  predicate AllDigits(s: string) {
    forall i :: 0 <= i < |s| ==> IsDigit(s[i])
  }

  function DigitValue(c: char): (d: nat)
    requires IsDigit(c)
    ensures d < 10 && Digit(d) == c
  {
    (c as int) - ('0' as int)
  }

  lemma DigitIs(d: nat)
    requires d < 10
    ensures IsDigit(Digit(d)) && DigitValue(Digit(d)) == d
  {
  }

  /** A number in decimal, with zeros before it to `width` digits. */
  function Padded(n: nat, width: nat): (s: string)
    ensures s != []
    decreases n, width
  {
    if n < 10 && width <= 1 then [Digit(n)]
    else Padded(n / 10, if width > 0 then width - 1 else 0) + [Digit(n % 10)]
  }

  function ParseNat(s: string): (n: nat)
    requires AllDigits(s)
  {
    if s == [] then 0 else 10 * ParseNat(s[..|s| - 1]) + DigitValue(s[|s| - 1])
  }

  function Power10(n: nat): (p: nat)
    ensures p > 0
  {
    if n == 0 then 1 else 10 * Power10(n - 1)
  }

  lemma {:induction false} PaddedParses(n: nat, width: nat)
    ensures AllDigits(Padded(n, width)) && ParseNat(Padded(n, width)) == n
    decreases n, width
  {
    DigitIs(n % 10);
    if !(n < 10 && width <= 1) {
      var w := if width > 0 then width - 1 else 0;
      PaddedParses(n / 10, w);
      var s := Padded(n, width);
      assert s[..|s| - 1] == Padded(n / 10, w);
    } else {
      assert Padded(n, width)[..0] == [];
    }
  }

  lemma {:induction false} PaddedLength(n: nat, width: nat)
    ensures |Padded(n, width)| >= width
    ensures width > 0 && n < Power10(width) ==> |Padded(n, width)| == width
    decreases n, width
  {
    if !(n < 10 && width <= 1) {
      PaddedLength(n / 10, if width > 0 then width - 1 else 0);
    }
  }

  /** A number has no more digits than it needs, beyond the width. */
  lemma {:induction false} PaddedAtMost(n: nat, width: nat, most: nat)
    requires width <= most && 0 < most && n < Power10(most)
    ensures |Padded(n, width)| <= most
    decreases n, width
  {
    if !(n < 10 && width <= 1) {
      if most > 1 {
        PaddedAtMost(n / 10, if width > 0 then width - 1 else 0, most - 1);
      }
    }
  }

  // ------------------------------------------------------------------------- text

  /** The first place of one of `chars`. */
  function Find(s: string, chars: string): (at: Option<nat>)
    ensures at.Some? ==> at.value < |s| && s[at.value] in chars
  {
    if s == [] then None
    else if s[0] in chars then Some(0)
    else
      var rest := Find(s[1..], chars);
      if rest.None? then None else Some(rest.value + 1)
  }

  function Split(s: string, separator: char): (parts: seq<string>)
    ensures parts != []
    decreases |s|
  {
    var at := Find(s, [separator]);
    if at.None? then [s] else [s[..at.value]] + Split(s[at.value + 1..], separator)
  }

  lemma {:induction false} FindFirst(a: string, c: char, b: string, chars: string)
    requires c in chars && forall i :: 0 <= i < |a| ==> a[i] !in chars
    ensures Find(a + [c] + b, chars) == Some(|a|)
  {
    if a != [] {
      assert (a + [c] + b)[1..] == a[1..] + [c] + b;
      FindFirst(a[1..], c, b, chars);
    }
  }

  lemma {:induction false} FindNone(a: string, chars: string)
    requires forall i :: 0 <= i < |a| ==> a[i] !in chars
    ensures Find(a, chars).None?
  {
    if a != [] { FindNone(a[1..], chars); }
  }

  lemma SplitOnce(a: string, c: char, b: string)
    requires c !in a
    ensures Split(a + [c] + b, c) == [a] + Split(b, c)
  {
    FindFirst(a, c, b, [c]);
    assert (a + [c] + b)[..|a|] == a && (a + [c] + b)[|a| + 1..] == b;
  }

  lemma SplitNot(a: string, c: char)
    requires c !in a
    ensures Split(a, c) == [a]
  {
    FindNone(a, [c]);
  }

  // ------------------------------------------------------------------------ display

  const NANOS: nat := 1_000_000_000

  datatype Time = Time(secs: i64, nanos: nat)

  predicate IsTime(t: Time) {
    t.nanos < NANOS
  }

  function TrimZeros(s: string): (t: string) {
    if s != [] && s[|s| - 1] == '0' then TrimZeros(s[..|s| - 1]) else s
  }

  function YearText(year: int): (s: string) {
    if 0 <= year <= 9999 then Padded(year, 4)
    else if year < 0 then "-" + Padded(-year, 4)
    else "+" + Padded(year, 4)
  }

  function DateTextOf(date: Date): (s: string)
    requires date.month >= 0 && date.day >= 0
  {
    YearText(date.year) + "-" + Padded(date.month, 2) + "-" + Padded(date.day, 2)
  }

  function Clock(second: nat): (s: string) {
    Padded(second / 3600, 2) + ":" + Padded(second / 60 % 60, 2) + ":" + Padded(second % 60, 2)
  }

  function Fraction(nanos: nat): (s: string) {
    if nanos != 0 then "." + TrimZeros(Padded(nanos, 9)) else ""
  }

  lemma DateIsPositive(day: int)
    ensures 1 <= CivilFromDays(day).month <= 12 && 1 <= CivilFromDays(day).day <= 31
  {
    DayToDateAndBack(day);
    hide CivilFromDays, DaysFromCivil;
  }

  /** `Display`. */
  function Display(t: Time): (s: string) {
    var day, second := t.secs / 86_400, t.secs % 86_400;
    DateIsPositive(day);
    DateTextOf(CivilFromDays(day)) + "T" + Clock(second) + Fraction(t.nanos) + "Z"
  }

  // ------------------------------------------------------------------------ parsing

  /** A whole number as Rust reads one: a plus sign is let through. */
  function ParseU32(s: string): (n: Option<nat>) {
    var digits := if s != [] && s[0] == '+' then s[1..] else s;
    if digits == [] || !AllDigits(digits) then None else Some(ParseNat(digits))
  }

  /** `parse_date`: four digits of a year without a sign, four to twelve with one,
      and a day that month has. */
  function ParseDate(text: string): (date: Option<Date>) {
    if text == [] then None
    else if text[0] == '+' then ParseFields(1, Split(text[1..], '-'))
    else if text[0] == '-' then ParseFields(-1, Split(text[1..], '-'))
    else ParseFields(0, Split(text, '-'))
  }

  function ParseFields(sign: int, fields: seq<string>): (date: Option<Date>) {
    if |fields| != 3 then None
    else
      var (year, month, day) := (fields[0], fields[1], fields[2]);
      if year == [] || !AllDigits(year) || |month| != 2 || |day| != 2 then None
      else if |year| < 4 || (sign == 0 && |year| != 4) || |year| > 12 then None
      else
        var y: int := ParseNat(year);
        var m, d := ParseU32(month), ParseU32(day);
        if m.None? || d.None? then None
        else
          var date := Date(if sign < 0 then -y else y, m.value, d.value);
          if Exists(date) then Some(date) else None
  }

  predicate TwoDigits(s: string) {
    |s| == 2 && AllDigits(s)
  }

  /** `two_digit_fields`: `n` of them between colons. */
  function TwoDigitFields(text: string, n: nat): (fields: Option<seq<nat>>)
    ensures fields.Some? ==> |fields.value| == n
  {
    var parts := Split(text, ':');
    if |parts| == n && (forall i :: 0 <= i < n ==> TwoDigits(parts[i]))
    then Some(seq(n, i requires 0 <= i < n => ParseNat(parts[i])))
    else None
  }

  function PadRight(s: string, width: nat): (t: string)
    ensures AllDigits(s) ==> AllDigits(t)
    decreases width - |s|
  {
    if |s| >= width then s else PadRight(s + "0", width)
  }

  function ParseFraction(fraction: Option<string>): (nanos: Option<nat>) {
    match fraction
    case None => Some(0)
    case Some(f) => if 1 <= |f| <= 9 && AllDigits(f) then Some(ParseNat(PadRight(f, 9))) else None
  }

  function ParseOffset(offset: string): (secs: Option<int>)
    requires offset != []
  {
    if offset == "Z" || offset == "z" then Some(0)
    else
      var sign: int := if offset[0] == '-' then -1 else 1;
      var fields := TwoDigitFields(offset[1..], 2);
      if fields.None? || fields.value[0] > 23 || fields.value[1] > 59 then None
      else Some(sign * (fields.value[0] * 3600 + fields.value[1] * 60))
  }

  function ParseClock(hms: string): (second: Option<nat>) {
    var fields := TwoDigitFields(hms, 3);
    if fields.None? || fields.value[0] > 23 || fields.value[1] > 59 || fields.value[2] > 59 then None
    else Some(fields.value[0] * 3600 + fields.value[1] * 60 + fields.value[2])
  }

  /** What follows the date: the second of the day, the nanoseconds, the offset. */
  datatype Rest = Rest(second: nat, nanos: nat, offset: int)

  function ParseRest(text: string): (rest: Option<Rest>) {
    var z := Find(text, "Zz+-");
    if z.None? then None
    else
      var clock, offset := text[..z.value], ParseOffset(text[z.value..]);
      var dot := Find(clock, ".");
      var second := ParseClock(if dot.None? then clock else clock[..dot.value]);
      var nanos := ParseFraction(if dot.None? then None else Some(clock[dot.value + 1..]));
      if second.None? || nanos.None? || offset.None? then None
      else Some(Rest(second.value, nanos.value, offset.value))
  }

  /** `parse_rfc3339`. */
  function Parse(text: string): (t: Option<Time>) {
    var at := Find(text, "Tt ");
    if at.None? then None
    else
      var date, rest := ParseDate(text[..at.value]), ParseRest(text[at.value + 1..]);
      if date.None? || rest.None? then None
      else
        var secs := DaysFromCivil(date.value) * 86_400 + rest.value.second - rest.value.offset;
        if -0x8000_0000_0000_0000 <= secs < 0x8000_0000_0000_0000 && rest.value.nanos < NANOS
        then Some(Time(secs, rest.value.nanos)) else None
  }

  // --------------------------------------------------------------------- round trips

  lemma DigitsAreNot(s: string, chars: string)
    requires AllDigits(s) && forall c <- chars :: !IsDigit(c)
    ensures forall i :: 0 <= i < |s| ==> s[i] !in chars
  {
  }

  lemma TwoBack(n: nat)
    requires n < 100
    ensures TwoDigits(Padded(n, 2)) && ParseNat(Padded(n, 2)) == n && ':' !in Padded(n, 2) && '-' !in Padded(n, 2)
    ensures ParseU32(Padded(n, 2)) == Some(n)
  {
    PaddedParses(n, 2);
    assert Power10(2) == 100;
    PaddedLength(n, 2);
    DigitsAreNot(Padded(n, 2), ":-+");
    hide Padded, Power10;
  }

  lemma Regroup(a: string, x: string, b: string, y: string, c: string)
    ensures a + x + b + y + c == a + x + (b + y + c)
  {
  }

  lemma SplitThree(a: string, b: string, c: string, sep: char)
    requires sep !in a && sep !in b && sep !in c
    ensures Split(a + [sep] + b + [sep] + c, sep) == [a, b, c]
  {
    hide Split;
    Regroup(a, [sep], b, [sep], c);
    SplitOnce(a, sep, b + [sep] + c);
    SplitOnce(b, sep, c);
    SplitNot(c, sep);
  }

  /** Three two-digit numbers between colons. */
  lemma ThreeBack(a: string, b: string, c: string)
    requires TwoDigits(a) && TwoDigits(b) && TwoDigits(c) && ':' !in a && ':' !in b && ':' !in c
    ensures TwoDigitFields(a + ":" + b + ":" + c, 3) == Some([ParseNat(a), ParseNat(b), ParseNat(c)])
  {
    hide Split, ParseNat, AllDigits;
    SplitThree(a, b, c, ':');
    FieldsAre(a + ":" + b + ":" + c, a, b, c);
  }

  lemma FieldsAre(text: string, a: string, b: string, c: string)
    requires Split(text, ':') == [a, b, c] && TwoDigits(a) && TwoDigits(b) && TwoDigits(c)
    ensures TwoDigitFields(text, 3) == Some([ParseNat(a), ParseNat(b), ParseNat(c)])
  {
    hide Split, ParseNat;
    var parts := Split(text, ':');
    assert forall i :: 0 <= i < 3 ==> TwoDigits(parts[i]);
    var numbers := TwoDigitFields(text, 3).value;
    assert numbers[0] == ParseNat(a) && numbers[1] == ParseNat(b) && numbers[2] == ParseNat(c);
    assert |numbers| == 3 && numbers == [ParseNat(a), ParseNat(b), ParseNat(c)];
  }

  lemma ClockParts(second: nat)
    requires second < 86_400
    ensures second / 3600 < 24 && second / 60 % 60 < 60 && second % 60 < 60
    ensures second == (second / 3600) * 3600 + (second / 60 % 60) * 60 + second % 60
  {
  }

  lemma ClockBack(second: nat)
    requires second < 86_400
    ensures ParseClock(Clock(second)) == Some(second)
  {
    hide Padded, ParseNat, TwoDigitFields, ParseU32;
    ClockParts(second);
    var h, m, s := second / 3600, second / 60 % 60, second % 60;
    TwoBack(h);
    TwoBack(m);
    TwoBack(s);
    ThreeBack(Padded(h, 2), Padded(m, 2), Padded(s, 2));
  }

  /** Digits and colons only. */
  predicate IsClockChar(c: char) {
    IsDigit(c) || c == ':'
  }

  lemma ClockChars(second: nat)
    ensures forall i :: 0 <= i < |Clock(second)| ==> IsClockChar(Clock(second)[i])
  {
    PaddedParses(second / 3600, 2);
    PaddedParses(second / 60 % 60, 2);
    PaddedParses(second % 60, 2);
    hide Padded, ParseNat;
  }

  // --------------------------------------------------------------------- fractions

  lemma {:induction false} TrimIs(s: string)
    ensures |TrimZeros(s)| <= |s| && PadRight(TrimZeros(s), |s|) == s
    decreases s
  {
    if s != [] && s[|s| - 1] == '0' {
      var n := |s| - 1;
      TrimIs(s[..n]);
      PadMore(TrimZeros(s[..n]), n);
      hide PadRight;
      assert s == s[..n] + "0";
    }
  }

  lemma {:induction false} TrimKeeps(s: string)
    requires AllDigits(s)
    ensures AllDigits(TrimZeros(s))
    ensures TrimZeros(s) == [] ==> forall i :: 0 <= i < |s| ==> s[i] == '0'
  {
    if s != [] && s[|s| - 1] == '0' {
      TrimKeeps(s[..|s| - 1]);
    }
  }

  lemma {:induction false} PadMore(s: string, width: nat)
    requires |s| <= width
    ensures PadRight(s, width + 1) == PadRight(s, width) + "0"
    decreases width - |s|
  {
    if |s| < width {
      PadMore(s + "0", width);
    } else {
      assert PadRight(s + "0", width + 1) == s + "0";
    }
  }

  lemma {:induction false} ZerosAreZero(s: string)
    requires forall i :: 0 <= i < |s| ==> s[i] == '0'
    ensures AllDigits(s) && ParseNat(s) == 0
  {
    if s != [] { ZerosAreZero(s[..|s| - 1]); }
  }

  /** A fraction has one to nine digits, and gives the nanoseconds back. */
  lemma FractionBack(nanos: nat)
    requires 0 < nanos < NANOS
    ensures var f := TrimZeros(Padded(nanos, 9));
            1 <= |f| <= 9 && AllDigits(f) && ParseFraction(Some(f)) == Some(nanos)
  {
    var s := Padded(nanos, 9);
    PaddedParses(nanos, 9);
    NinePower();
    PaddedLength(nanos, 9);
    TrimIs(s);
    TrimKeeps(s);
    hide Padded, TrimZeros, PadRight, Power10;
    if TrimZeros(s) == [] { ZerosAreZero(s); }
  }

  lemma NinePower()
    ensures Power10(9) == NANOS && Power10(12) == 1_000_000_000_000 && Power10(4) == 10_000
  {
    assert Power10(4) == 10_000;
    assert Power10(8) == 100_000_000;
  }

  // ------------------------------------------------------------------------- dates

  lemma YearBack(year: int)
    requires -1_000_000_000_000 < year < 1_000_000_000_000
    ensures var text := YearText(year);
            var digits := if 0 <= year <= 9999 then text else text[1..];
            && text != [] && AllDigits(digits) && 4 <= |digits| <= 12 && (0 <= year <= 9999 ==> |digits| == 4)
            && ParseNat(digits) == (if year < 0 then -year else year)
            && '-' !in digits
            && (0 <= year <= 9999 ==> IsDigit(text[0]))
            && (!(0 <= year <= 9999) ==> text == [if year < 0 then '-' else '+'] + digits)
  {
    var n: nat := if year < 0 then -year else year;
    PaddedParses(n, 4);
    NinePower();
    PaddedLength(n, 4);
    PaddedAtMost(n, 4, 12);
    DigitsAreNot(Padded(n, 4), "-");
    hide Padded, Power10, ParseNat;
  }

  lemma DateBack(date: Date)
    requires Exists(date) && -1_000_000_000_000 < date.year < 1_000_000_000_000
    ensures 1 <= date.month <= 12 && 1 <= date.day <= 31
    ensures ParseDate(DateTextOf(date)) == Some(date)
  {
    MonthsAndDays(date);
    YearBack(date.year);
    TwoBack(date.month);
    TwoBack(date.day);
    hide YearText, Padded, Split, ParseNat, ParseU32, Exists, AllDigits, ParseFields;
    var year, month, day := YearText(date.year), Padded(date.month, 2), Padded(date.day, 2);
    var plain := 0 <= date.year <= 9999;
    var digits := if plain then year else year[1..];
    FieldsBack(date, digits, month, day);
    SplitThree(digits, month, day, '-');
    DateShape(year, digits, month, day, plain, if date.year < 0 then '-' else '+');
  }

  lemma DateShape(year: string, digits: string, month: string, day: string, plain: bool, sign: char)
    requires year != [] && year == if plain then digits else [sign] + digits
    ensures var text := year + "-" + month + "-" + day;
            text != [] && text[0] == year[0]
            && (if plain then text else text[1..]) == digits + ['-'] + month + ['-'] + day
  {
  }

  lemma FieldsBack(date: Date, digits: string, month: string, day: string)
    requires Exists(date) && date.month >= 0 && date.day >= 0
    requires AllDigits(digits) && 4 <= |digits| <= 12 && (0 <= date.year <= 9999 ==> |digits| == 4)
    requires ParseNat(digits) == (if date.year < 0 then -date.year else date.year)
    requires |month| == 2 && |day| == 2 && ParseU32(month) == Some(date.month) && ParseU32(day) == Some(date.day)
    ensures var sign := if 0 <= date.year <= 9999 then 0 else if date.year < 0 then -1 else 1;
            ParseFields(sign, [digits, month, day]) == Some(date)
  {
    hide Exists, ParseNat, ParseU32, AllDigits;
  }

  lemma MonthsAndDays(date: Date)
    requires Exists(date)
    ensures 1 <= date.month <= 12 && 1 <= date.day <= 31
  {
    hide IsLeap;
  }

  /** Neither a date nor a clock has what ends it. */
  predicate IsDateChar(c: char) {
    IsDigit(c) || c == '-' || c == '+'
  }

  predicate AllDateChars(s: string) {
    forall i :: 0 <= i < |s| ==> IsDateChar(s[i])
  }

  lemma JoinedChars(a: string, b: string)
    requires AllDateChars(a) && AllDateChars(b)
    ensures AllDateChars(a + b)
  {
  }

  lemma DigitsAreDateChars(s: string)
    requires AllDigits(s)
    ensures AllDateChars(s)
  {
  }

  lemma YearChars(year: int)
    ensures AllDateChars(YearText(year))
  {
    var n: nat := if year < 0 then -year else year;
    PaddedParses(n, 4);
    hide Padded, ParseNat;
    DigitsAreDateChars(Padded(n, 4));
    assert AllDateChars("-") && AllDateChars("+");
    hide AllDateChars;
    JoinedChars("-", Padded(n, 4));
    JoinedChars("+", Padded(n, 4));
  }

  lemma DateChars(date: Date)
    requires date.month >= 0 && date.day >= 0
    ensures AllDateChars(DateTextOf(date))
  {
    var year, month, day := YearText(date.year), Padded(date.month, 2), Padded(date.day, 2);
    assert AllDateChars("-");
    hide AllDateChars, AllDigits, YearText, Padded, ParseNat;
    PaddedParses(date.month, 2);
    PaddedParses(date.day, 2);
    DigitsAreDateChars(month);
    DigitsAreDateChars(day);
    YearChars(date.year);
    JoinedChars(year, "-");
    JoinedChars(year + "-", month);
    JoinedChars(year + "-" + month, "-");
    JoinedChars(year + "-" + month + "-", day);
  }

  /** The years a time reaches have at most twelve digits. */
  lemma YearIsBounded(secs: int)
    requires -0x8000_0000_0001_5180 <= secs <= 0x8000_0000_0001_5180
    ensures var year := CivilFromDays(secs / 86_400).year; -1_000_000_000_000 < year < 1_000_000_000_000
  {
    var days := secs / 86_400 + 719_468;
    var era := days / 146_097;
    assert -107_000_000_000_000 < days < 107_000_000_000_000;
    assert -800_000_000 < era < 800_000_000;
    YearOfEraIs(days % 146_097);
    hide YearOfEra, Before, IsLeap;
  }

  lemma ClockEnds(second: nat)
    ensures forall i :: 0 <= i < |Clock(second)| ==> Clock(second)[i] !in "Zz+-" && Clock(second)[i] !in "."
  {
    ClockChars(second);
    hide Clock;
  }

  lemma FractionEnds(f: string)
    requires AllDigits(f)
    ensures forall i :: 0 <= i < |f| ==> f[i] !in "Zz+-"
  {
  }

  lemma RestBack(second: nat, nanos: nat)
    requires second < 86_400 && nanos < NANOS
    ensures ParseRest(Clock(second) + Fraction(nanos) + "Z") == Some(Rest(second, nanos, 0))
  {
    hide Clock, Fraction;
    RestWithOffset(second, nanos, "Z", 0);
  }

  /** A clock, a fraction and whatever offset. */
  lemma RestWithOffset(second: nat, nanos: nat, tail: string, offset: int)
    requires second < 86_400 && nanos < NANOS
    requires tail != [] && tail[0] in "Zz+-" && ParseOffset(tail) == Some(offset)
    ensures ParseRest(Clock(second) + Fraction(nanos) + tail) == Some(Rest(second, nanos, offset))
  {
    hide Clock, ParseClock, Padded, TrimZeros, PadRight, ParseNat, Find, ParseFraction, AllDigits, ParseOffset;
    ClockBack(second);
    ClockEnds(second);
    var clock := Clock(second);
    if nanos == 0 {
      FindNone(clock, ".");
      NoFraction(second, clock, tail, offset);
      assert clock + "" + tail == clock + tail;
    } else {
      var f := TrimZeros(Padded(nanos, 9));
      FractionBack(nanos);
      FractionEnds(f);
      WithFraction(second, nanos, clock, f, tail, offset);
      assert clock + ("." + f) + tail == clock + ['.'] + f + tail;
    }
  }

  lemma NoFraction(second: nat, clock: string, tail: string, offset: int)
    requires ParseClock(clock) == Some(second) && Find(clock, ".").None?
    requires tail != [] && tail[0] in "Zz+-" && ParseOffset(tail) == Some(offset)
    requires forall i :: 0 <= i < |clock| ==> clock[i] !in "Zz+-"
    ensures ParseRest(clock + tail) == Some(Rest(second, 0, offset))
  {
    hide ParseClock, Find, ParseOffset;
    var text := clock + tail;
    FindFirst(clock, tail[0], tail[1..], "Zz+-");
    assert text == clock + [tail[0]] + tail[1..];
    assert text[..|clock|] == clock && text[|clock|..] == tail;
  }

  lemma WithFraction(second: nat, nanos: nat, clock: string, f: string, tail: string, offset: int)
    requires ParseClock(clock) == Some(second) && ParseFraction(Some(f)) == Some(nanos)
    requires tail != [] && tail[0] in "Zz+-" && ParseOffset(tail) == Some(offset)
    requires forall i :: 0 <= i < |clock| ==> clock[i] !in "Zz+-" && clock[i] !in "."
    requires forall i :: 0 <= i < |f| ==> f[i] !in "Zz+-"
    ensures ParseRest(clock + ['.'] + f + tail) == Some(Rest(second, nanos, offset))
  {
    hide ParseClock, Find, ParseFraction, ParseOffset;
    var before := clock + ['.'] + f;
    var text := before + tail;
    FindFirst(before, tail[0], tail[1..], "Zz+-");
    assert text == before + [tail[0]] + tail[1..];
    assert text[..|before|] == before && text[|before|..] == tail;
    FindFirst(clock, '.', f, ".");
    assert before[..|clock|] == clock && before[|clock| + 1..] == f;
  }

  /** Parsing the text of any point in time gives it back. */
  lemma DisplayParses(t: Time)
    requires IsTime(t)
    ensures Parse(Display(t)) == Some(t)
  {
    var day, second := t.secs / 86_400, t.secs % 86_400;
    var date := CivilFromDays(day);
    DayToDateAndBack(day);
    YearIsBounded(t.secs);
    hide CivilFromDays, DaysFromCivil, Exists, DateTextOf, Clock, ParseDate, ParseRest, Find, Fraction;
    DateBack(date);
    RestBack(second, t.nanos);
    DateEnds(date);
    var text, rest := DateTextOf(date), Clock(second) + Fraction(t.nanos) + "Z";
    Regroup(text, "T", Clock(second), Fraction(t.nanos), "Z");
    assert Display(t) == text + ['T'] + rest;
    ParsedIs(t, text, rest, date, second);
  }

  lemma ParsedIs(t: Time, text: string, rest: string, date: Date, second: nat)
    requires IsTime(t) && second == t.secs % 86_400 && DaysFromCivil(date) == t.secs / 86_400
    requires ParseDate(text) == Some(date) && ParseRest(rest) == Some(Rest(second, t.nanos, 0))
    requires forall i :: 0 <= i < |text| ==> text[i] !in "Tt "
    ensures Parse(text + ['T'] + rest) == Some(t)
  {
    hide DaysFromCivil, ParseDate, ParseRest, Find;
    Joined(text, rest);
  }

  // ---------------------------------------------------------------------- offsets

  function HoursText(h: nat, m: nat): (s: string) {
    Padded(h, 2) + ":" + Padded(m, 2)
  }

  /** An offset from UTC, by its sign, hours and minutes. */
  function OffsetText(west: bool, h: nat, m: nat): (s: string) {
    (if west then "-" else "+") + HoursText(h, m)
  }

  /** East of UTC a clock is ahead, west of it behind. */
  function OffsetSecs(west: bool, h: nat, m: nat): (secs: int) {
    if west then -(h * 3600 + m * 60) else h * 3600 + m * 60
  }

  lemma HoursBack(h: nat, m: nat)
    requires h < 24 && m < 60
    ensures TwoDigitFields(HoursText(h, m), 2) == Some([h, m]) && HoursText(h, m) != []
  {
    hide Padded, ParseNat, Split, ParseU32, AllDigits;
    TwoBack(h);
    TwoBack(m);
    var a, b := Padded(h, 2), Padded(m, 2);
    SplitOnce(a, ':', b);
    SplitNot(b, ':');
    TwoFieldsAre(a + ":" + b, a, b);
  }

  lemma OffsetBack(west: bool, h: nat, m: nat)
    requires h < 24 && m < 60
    ensures var text := OffsetText(west, h, m);
            text != [] && text[0] in "Zz+-" && ParseOffset(text) == Some(OffsetSecs(west, h, m))
  {
    HoursBack(h, m);
    hide HoursText, TwoDigitFields;
    assert OffsetText(west, h, m)[1..] == HoursText(h, m);
  }

  lemma TwoFieldsAre(text: string, a: string, b: string)
    requires Split(text, ':') == [a] + [b] && TwoDigits(a) && TwoDigits(b)
    ensures TwoDigitFields(text, 2) == Some([ParseNat(a), ParseNat(b)])
  {
    hide Split, ParseNat, AllDigits;
    var parts := Split(text, ':');
    assert parts[0] == a && parts[1] == b;
    var numbers := TwoDigitFields(text, 2).value;
    assert numbers == [ParseNat(a), ParseNat(b)];
  }

  /** The text of a point in time on a clock that is so far from UTC. */
  function LocalText(t: Time, west: bool, h: nat, m: nat): (s: string) {
    ClockText(t.secs + OffsetSecs(west, h, m), t.nanos, OffsetText(west, h, m))
  }

  function ClockText(secs: int, nanos: nat, tail: string): (s: string) {
    var day, second := secs / 86_400, secs % 86_400;
    DateIsPositive(day);
    DateTextOf(CivilFromDays(day)) + "T" + (Clock(second) + Fraction(nanos) + tail)
  }

  /** Parsing a local time with its offset gives the point in time. */
  lemma LocalParses(t: Time, west: bool, h: nat, m: nat)
    requires IsTime(t) && h < 24 && m < 60
    ensures Parse(LocalText(t, west, h, m)) == Some(t)
  {
    hide *;
    OffsetBack(west, h, m);
    OffsetIsSmall(west, h, m);
    LocalIs(t, west, h, m);
    ClockParses(t, OffsetText(west, h, m), OffsetSecs(west, h, m));
  }

  lemma LocalIs(t: Time, west: bool, h: nat, m: nat)
    ensures LocalText(t, west, h, m) == ClockText(t.secs + OffsetSecs(west, h, m), t.nanos, OffsetText(west, h, m))
  {
    hide ClockText, OffsetText, OffsetSecs;
  }

  lemma OffsetIsSmall(west: bool, h: nat, m: nat)
    requires h < 24 && m < 60
    ensures -86_400 <= OffsetSecs(west, h, m) <= 86_400
  {
  }

  lemma ClockParses(t: Time, tail: string, offset: int)
    requires IsTime(t) && -86_400 <= offset <= 86_400
    requires tail != [] && tail[0] in "Zz+-" && ParseOffset(tail) == Some(offset)
    ensures Parse(ClockText(t.secs + offset, t.nanos, tail)) == Some(t)
  {
    var day, second := (t.secs + offset) / 86_400, (t.secs + offset) % 86_400;
    var date := CivilFromDays(day);
    DayToDateAndBack(day);
    YearIsBounded(t.secs + offset);
    hide CivilFromDays, DaysFromCivil, Exists, DateTextOf, Clock, ParseDate, ParseRest, Find, Fraction, ParseOffset, Parse;
    DateBack(date);
    RestWithOffset(second, t.nanos, tail, offset);
    DateEnds(date);
    LocalParsedIs(t, offset, DateTextOf(date), Clock(second) + Fraction(t.nanos) + tail, date, second);
  }

  lemma LocalParsedIs(t: Time, offset: int, text: string, rest: string, date: Date, second: nat)
    requires IsTime(t) && second == (t.secs + offset) % 86_400 && DaysFromCivil(date) == (t.secs + offset) / 86_400
    requires ParseDate(text) == Some(date) && ParseRest(rest) == Some(Rest(second, t.nanos, offset))
    requires forall i :: 0 <= i < |text| ==> text[i] !in "Tt "
    ensures Parse(text + "T" + rest) == Some(t)
  {
    hide DaysFromCivil, ParseDate, ParseRest, Find;
    Joined(text, rest);
  }

  lemma DateEnds(date: Date)
    requires date.month >= 0 && date.day >= 0
    ensures forall i :: 0 <= i < |DateTextOf(date)| ==> DateTextOf(date)[i] !in "Tt "
  {
    DateChars(date);
    hide DateTextOf;
  }

  lemma Joined(text: string, rest: string)
    requires forall i :: 0 <= i < |text| ==> text[i] !in "Tt "
    ensures var all := text + ['T'] + rest;
            Find(all, "Tt ") == Some(|text|) && all[..|text|] == text && all[|text| + 1..] == rest
  {
    FindFirst(text, 'T', rest, "Tt ");
  }

  /** `two_digit_fields`, slot by slot. */
  method ReadTwoDigits(text: string, n: nat) returns (fields: Option<seq<nat>>)
    ensures fields == TwoDigitFields(text, n)
  {
    hide Split, AllDigits, ParseNat;
    var parts := Split(text, ':');
    var out: seq<nat> := [];
    for i := 0 to n
      invariant |out| == i <= |parts|
      invariant forall j :: 0 <= j < i ==> TwoDigits(parts[j]) && out[j] == ParseNat(parts[j])
    {
      if i >= |parts| || !TwoDigits(parts[i]) {
        return None;
      }
      out := out + [ParseNat(parts[i])];
    }
    if |parts| == n {
      assert out == TwoDigitFields(text, n).value;
      return Some(out);
    }
    fields := None;
  }

  /** A time of the source's own tests, as text. */
  lemma KnownText()
    ensures Display(Time(1_790_000_000, 120_000_000)) == "2026-09-21T14:13:20.12Z"
  {
    hide CivilFromDays, DateTextOf, Clock, Padded, TrimZeros;
    KnownDate();
    KnownClock();
    KnownFraction();
  }

  lemma KnownDate()
    ensures CivilFromDays(20_717) == Date(2026, 9, 21) && DateTextOf(Date(2026, 9, 21)) == "2026-09-21"
  {
    KnownDay();
    KnownNumbers();
    KnownYear();
    hide Padded, CivilFromDays;
  }

  lemma KnownDay()
    ensures CivilFromDays(20_717) == Date(2026, 9, 21)
  {
    assert DaysFromCivil(Date(2026, 9, 21)) == 20_717;
    hide CivilFromDays, DaysFromCivil;
    DateToDayAndBack(Date(2026, 9, 21));
  }

  lemma KnownNumbers()
    ensures Padded(9, 2) == "09" && Padded(21, 2) == "21"
    ensures Padded(14, 2) == "14" && Padded(13, 2) == "13" && Padded(20, 2) == "20"
  {
    TwoPadded(9);
    TwoPadded(21);
    TwoPadded(14);
    TwoPadded(13);
    TwoPadded(20);
    hide Padded;
  }

  lemma KnownClock()
    ensures Clock(51_200) == "14:13:20"
  {
    KnownNumbers();
    hide Padded;
  }

  lemma TwoPadded(n: nat)
    requires n < 100
    ensures Padded(n, 2) == [Digit(n / 10), Digit(n % 10)]
  {
  }

  lemma KnownYear()
    ensures Padded(2026, 4) == "2026"
  {
    TwoPadded(20);
    assert Padded(202, 3) == Padded(20, 2) + "2";
    assert Padded(2026, 4) == Padded(202, 3) + "6";
  }

  lemma KnownFraction()
    ensures TrimZeros(Padded(120_000_000, 9)) == "12"
  {
    TwoPadded(12);
    hide TrimZeros;
    assert Padded(120, 3) == "120";
    assert Padded(1200, 4) == "1200";
    assert Padded(12_000, 5) == "12000";
    assert Padded(120_000, 6) == "120000";
    assert Padded(1_200_000, 7) == "1200000";
    assert Padded(12_000_000, 8) == "12000000";
    assert Padded(120_000_000, 9) == "120000000";
    ManyTrimmed();
  }

  lemma ManyTrimmed()
    ensures TrimZeros("120000000") == "12"
  {
    TrimOne("120000000", "12000000");
    TrimOne("12000000", "1200000");
    TrimOne("1200000", "120000");
    TrimOne("120000", "12000");
    TrimOne("12000", "1200");
    TrimOne("1200", "120");
    TrimOne("120", "12");
  }

  lemma TrimOne(s: string, t: string)
    requires s == t + "0"
    ensures TrimZeros(s) == TrimZeros(t)
  {
    assert s[..|t|] == t;
  }

  // ------------------------------------------------------------- what is read at all

  function Join(parts: seq<string>, separator: char): (s: string)
    requires parts != []
  {
    if |parts| == 1 then parts[0] else parts[0] + [separator] + Join(parts[1..], separator)
  }

  lemma {:induction false} SplitJoins(s: string, separator: char)
    ensures Join(Split(s, separator), separator) == s
    decreases |s|
  {
    var at := Find(s, [separator]);
    if at.Some? {
      var rest := s[at.value + 1..];
      SplitJoins(rest, separator);
      assert Split(s, separator) == [s[..at.value]] + Split(rest, separator);
      assert Split(s, separator)[1..] == Split(rest, separator);
      assert s == s[..at.value] + [separator] + rest;
    }
  }

  lemma TwoDigitsAre(s: string)
    requires TwoDigits(s)
    ensures ParseNat(s) < 100 && s == Padded(ParseNat(s), 2)
  {
    var (a, b) := (DigitValue(s[0]), DigitValue(s[1]));
    assert s[..1] == [s[0]] && s[..1][..0] == [];
    assert ParseNat(s[..1]) == a && ParseNat(s) == 10 * a + b;
    TwoPadded(10 * a + b);
    assert (10 * a + b) / 10 == a && (10 * a + b) % 10 == b;
  }

  lemma ThreeFields(text: string)
    requires TwoDigitFields(text, 3).Some?
    ensures var f := TwoDigitFields(text, 3).value;
            && f[0] < 100 && f[1] < 100 && f[2] < 100
            && text == Padded(f[0], 2) + ":" + Padded(f[1], 2) + ":" + Padded(f[2], 2)
  {
    var parts := Split(text, ':');
    SplitJoins(text, ':');
    hide Split, ParseNat, Padded;
    TwoDigitsAre(parts[0]);
    TwoDigitsAre(parts[1]);
    TwoDigitsAre(parts[2]);
    JoinThree(parts[0], parts[1], parts[2]);
    assert parts == [parts[0], parts[1], parts[2]];
  }

  lemma JoinThree(a: string, b: string, c: string)
    ensures Join([a, b, c], ':') == a + ":" + b + ":" + c
  {
    var last := [b, c];
    assert [a, b, c][1..] == last && last[1..] == [c];
    assert Join(last, ':') == b + [':'] + c;
    Regroup(a, ":", b, ":", c);
  }

  lemma TwoFields(text: string)
    requires TwoDigitFields(text, 2).Some?
    ensures var f := TwoDigitFields(text, 2).value;
            f[0] < 100 && f[1] < 100 && text == HoursText(f[0], f[1])
  {
    var parts := Split(text, ':');
    SplitJoins(text, ':');
    hide Split, ParseNat, Padded;
    TwoDigitsAre(parts[0]);
    TwoDigitsAre(parts[1]);
    assert parts[1..] == [parts[1]];
  }

  /** The clock texts read are just those of the seconds of a day. */
  lemma ClockReads(text: string, second: nat)
    ensures ParseClock(text) == Some(second) <==> second < 86_400 && text == Clock(second)
  {
    if second < 86_400 { ClockBack(second); }
    hide Padded, TwoDigitFields;
    if ParseClock(text) == Some(second) {
      ThreeFields(text);
      var f := TwoDigitFields(text, 3).value;
      SecondIs(f[0], f[1], f[2]);
    }
  }

  lemma SecondIs(h: nat, m: nat, s: nat)
    requires h < 24 && m < 60 && s < 60
    ensures var n := h * 3600 + m * 60 + s; n < 86_400 && n / 3600 == h && n / 60 % 60 == m && n % 60 == s
  {
  }

  /** Hours and minutes below a day. */
  ghost predicate HoursAndMinutes(text: string, secs: int) {
    exists h: nat, m: nat :: h < 24 && m < 60 && text == HoursText(h, m) && secs == h * 3600 + m * 60
  }

  /** An offset as section 5.6 of RFC 3339 has it. */
  ghost predicate IsOffset(text: string) {
    IsZ(text) || (text != [] && text[0] in "+-" && exists secs :: HoursAndMinutes(text[1..], secs))
  }

  predicate IsZ(text: string) {
    text == "Z" || text == "z"
  }

  /** The offsets read are `Z`, of either case, and just the hours and minutes below a
      day that follow a sign; or a `Z`, which then counts as a plus. */
  lemma OffsetReads(text: string, secs: int)
    requires text != [] && text[0] in "Zz+-"
    ensures ParseOffset(text) == Some(secs) <==>
              (IsZ(text) && secs == 0) || HoursAndMinutes(text[1..], if text[0] == '-' then -secs else secs)
  {
    var rest := text[1..];
    var hours := if text[0] == '-' then -secs else secs;
    HoursRead(rest, hours);
    OffsetOf(text, secs);
    hide HoursAndMinutes, ParseOffset, TwoDigitFields, HoursAre;
    if HoursAndMinutes(rest, hours) { NoHours(rest, hours); }
    if IsZ(text) { assert |text| == 1; }
  }

  predicate HoursAre(text: string, secs: int) {
    var f := TwoDigitFields(text, 2);
    f.Some? && f.value[0] < 24 && f.value[1] < 60 && secs == f.value[0] * 3600 + f.value[1] * 60
  }

  lemma OffsetOf(text: string, secs: int)
    requires text != []
    ensures ParseOffset(text) == Some(secs) <==>
              if IsZ(text) then secs == 0 else HoursAre(text[1..], if text[0] == '-' then -secs else secs)
  {
    hide TwoDigitFields;
  }

  lemma HoursRead(text: string, secs: int)
    ensures HoursAre(text, secs) <==> HoursAndMinutes(text, secs)
  {
    hide HoursText, TwoDigitFields;
    if HoursAndMinutes(text, secs) {
      var h: nat, m: nat :| h < 24 && m < 60 && text == HoursText(h, m) && secs == h * 3600 + m * 60;
      HoursBack(h, m);
    }
    if HoursAre(text, secs) {
      TwoFields(text);
    }
  }

  /** The date read is one that exists. */
  lemma DateExists(text: string)
    ensures ParseDate(text).Some? ==> Exists(ParseDate(text).value)
  {
    hide Split, AllDigits, Exists;
  }

  lemma {:induction false} FindLeast(s: string, chars: string)
    ensures var at := Find(s, chars);
            forall i :: 0 <= i < (if at.Some? then at.value else |s|) ==> s[i] !in chars
  {
    if s != [] { FindLeast(s[1..], chars); }
  }

  lemma HoursChars(text: string, secs: int)
    requires HoursAndMinutes(text, secs)
    ensures forall i :: 0 <= i < |text| ==> IsClockChar(text[i])
  {
    var h: nat, m: nat :| h < 24 && m < 60 && text == HoursText(h, m) && secs == h * 3600 + m * 60;
    PaddedParses(h, 2);
    PaddedParses(m, 2);
    hide Padded;
  }

  /** Of the offsets read those are RFC 3339's in which nothing follows a Z. */
  lemma LetterInOffset(offset: string)
    requires offset != [] && offset[0] in "Zz+-" && ParseOffset(offset).Some?
    ensures IsOffset(offset) <==> forall i :: 0 <= i < |offset| - 1 ==> offset[i] !in "Zz"
  {
    var secs := ParseOffset(offset).value;
    OffsetReads(offset, secs);
    hide ParseOffset, HoursAndMinutes;
    if !IsZ(offset) {
      var hours := if offset[0] == '-' then -secs else secs;
      HoursChars(offset[1..], hours);
      assert forall i :: 0 < i < |offset| ==> offset[i] == offset[1..][i - 1];
      NoHours(offset[1..], hours);
    }
  }

  lemma NoHours(text: string, secs: int)
    requires HoursAndMinutes(text, secs)
    ensures text != []
  {
    var h: nat, m: nat :| h < 24 && m < 60 && text == HoursText(h, m) && secs == h * 3600 + m * 60;
    HoursBack(h, m);
    hide HoursText;
  }

  /** And of the texts, those with no Z past the date but as their last character. */
  lemma LetterInTime(text: string)
    requires Parse(text).Some?
    ensures Find(text, "Tt ").Some?
    ensures var rest := text[Find(text, "Tt ").value + 1..];
            && Find(rest, "Zz+-").Some?
            && (IsOffset(rest[Find(rest, "Zz+-").value..]) <==>
                  forall i :: 0 <= i < |rest| - 1 ==> rest[i] !in "Zz")
  {
    hide ParseDate, ParseOffset, DaysFromCivil, Find, ParseClock, ParseFraction, IsOffset;
    var rest := text[Find(text, "Tt ").value + 1..];
    FindLeast(rest, "Zz+-");
    var z := Find(rest, "Zz+-").value;
    var offset := rest[z..];
    LetterInOffset(offset);
    assert forall i :: 0 <= i < |rest| - 1 ==> rest[i] == if i < z then rest[..z][i] else offset[i - z];
    assert forall i :: 0 <= i < |offset| ==> offset[i] == rest[z + i];
  }

  /** So hours and minutes after a Z are read, as if a plus had stood there: such a text
      there is for every time. */
  lemma LetterIsLetThrough(t: Time, letter: char, h: nat, m: nat)
    requires IsTime(t) && letter in "Zz" && h < 24 && m < 60
    ensures Parse(ClockText(t.secs + h * 3600 + m * 60, t.nanos, [letter] + HoursText(h, m))) == Some(t)
    ensures !IsOffset([letter] + HoursText(h, m))
  {
    hide *;
    var tail := [letter] + HoursText(h, m);
    var secs := h * 3600 + m * 60;
    LetterOffset(letter, h, m);
    assert -86_400 <= secs <= 86_400;
    ClockParses(t, tail, secs);
  }

  lemma LetterOffset(letter: char, h: nat, m: nat)
    requires letter in "Zz" && h < 24 && m < 60
    ensures var tail := [letter] + HoursText(h, m);
            && tail != [] && tail[0] in "Zz+-" && ParseOffset(tail) == Some(h * 3600 + m * 60) && !IsOffset(tail)
  {
    var tail := [letter] + HoursText(h, m);
    HoursBack(h, m);
    hide HoursText, ParseOffset;
    assert tail[1..] == HoursText(h, m) && tail[0] == letter && |tail| > 1;
    assert HoursAndMinutes(tail[1..], h * 3600 + m * 60);
    OffsetReads(tail, h * 3600 + m * 60);
  }

  // -------------------------------------------------------------------------- back

  const EARLIEST: Time := Time(-0x8000_0000_0000_0000, 0)

  /** Nanoseconds since 1970-01-01. */
  function Instant(t: Time): (n: int) {
    t.secs * NANOS + t.nanos
  }

  /** `back`: a duration before a time, or the earliest there is. */
  function Back(t: Time, duration: nat): (before: Time) {
    var n := Instant(t) - duration;
    if -0x8000_0000_0000_0000 <= n / NANOS < 0x8000_0000_0000_0000 then Time(n / NANOS, n % NANOS) else EARLIEST
  }

  lemma BackIs(t: Time, duration: nat)
    requires IsTime(t)
    ensures IsTime(Back(t, duration))
    ensures var n := Instant(t) - duration; Instant(Back(t, duration)) == if n >= Instant(EARLIEST) then n else Instant(EARLIEST)
  {
  }

  // -------------------------------------------------------------- signs let through

  /** A date's text past its sign, cut at the hyphens. */
  function DateFields(text: string): (fields: seq<string>) {
    Split(if text != [] && (text[0] == '+' || text[0] == '-') then text[1..] else text, '-')
  }

  /** The month and the day of a date's text are two digits each, as RFC 3339 has
      them. */
  predicate TwoDigitMonthAndDay(text: string) {
    var fields := DateFields(text);
    |fields| == 3 && TwoDigits(fields[1]) && TwoDigits(fields[2])
  }

  /** What `parse_date` reads as a month or a day: two digits, or a plus sign and a
      digit, and nothing else of two characters. */
  lemma TwoCharacterField(s: string)
    requires |s| == 2 && ParseU32(s).Some?
    ensures TwoDigits(s) <==> '+' !in s
  {
    hide ParseNat;
    assert s == [s[0], s[1]];
  }

  /** Cutting loses only the separators. */
  lemma {:induction false} SplitHas(s: string, separator: char, c: char)
    requires c != separator
    ensures c in s <==> exists part <- Split(s, separator) :: c in part
    decreases |s|
  {
    var at := Find(s, [separator]);
    if at.None? {
      assert Split(s, separator) == [s];
      assert Split(s, separator)[0] == s;
    } else {
      var (first, rest) := (s[..at.value], s[at.value + 1..]);
      SplitHas(rest, separator, c);
      assert s == first + [s[at.value]] + rest;
      var parts := Split(s, separator);
      assert parts == [first] + Split(rest, separator);
      assert parts[0] == first && forall part <- Split(rest, separator) :: part in parts;
      assert forall part <- parts :: part == first || part in Split(rest, separator);
    }
  }

  lemma ParsedFields(sign: int, fields: seq<string>)
    requires ParseFields(sign, fields).Some?
    ensures |fields| == 3 && AllDigits(fields[0]) && |fields[1]| == |fields[2]| == 2
    ensures ParseU32(fields[1]).Some? && ParseU32(fields[2]).Some?
  {
    hide ParseU32, ParseNat, AllDigits, Exists;
  }

  lemma PlusInFields(sign: int, body: string)
    requires ParseFields(sign, Split(body, '-')).Some?
    ensures var fields := Split(body, '-');
            |fields| == 3 && (TwoDigits(fields[1]) && TwoDigits(fields[2]) <==> '+' !in body)
  {
    hide ParseFields, Split, ParseU32, TwoDigits, AllDigits;
    var fields := Split(body, '-');
    ParsedFields(sign, fields);
    SplitHas(body, '-', '+');
    TwoCharacterField(fields[1]);
    TwoCharacterField(fields[2]);
    DigitsAreNot(fields[0], "+");
    assert fields == [fields[0], fields[1], fields[2]];
  }

  /** Of the texts read as a date exactly those without a plus sign past the first
      character have a month and a day of two digits each. */
  lemma PlusInDate(text: string)
    requires ParseDate(text).Some?
    ensures text != [] && (TwoDigitMonthAndDay(text) <==> '+' !in text[1..])
  {
    hide ParseFields, Split, TwoDigits;
    if text[0] == '+' {
      PlusInFields(1, text[1..]);
    } else if text[0] == '-' {
      PlusInFields(-1, text[1..]);
    } else {
      PlusInFields(0, text);
      assert text == [text[0]] + text[1..];
    }
  }

  /** And of the texts read as a point in time those without one between the first
      character and the end of the date. */
  lemma PlusInTime(text: string)
    requires Parse(text).Some?
    ensures Find(text, "Tt ").Some? && Find(text, "Tt ").value >= 1
    ensures var at := Find(text, "Tt ").value;
            TwoDigitMonthAndDay(text[..at]) <==> '+' !in text[1..at]
  {
    hide ParseDate, ParseRest, DaysFromCivil, Find, TwoDigitMonthAndDay;
    var at := Find(text, "Tt ").value;
    PlusInDate(text[..at]);
    assert text[..at][1..] == text[1..at];
  }

  /** So a text RFC 3339 does not have is read. */
  lemma PlusIsLetThrough()
    ensures Parse("2026-+1-01T00:00:00Z") == Some(Time(1_767_225_600, 0))
    ensures !TwoDigitMonthAndDay("2026-+1-01")
  {
    hide ParseDate, ParseRest, DaysFromCivil, Clock, Fraction, Parse, TwoDigitMonthAndDay, Exists;
    var date, text := Date(2026, 1, 1), "2026-+1-01";
    DateWithPlus();
    PlusInDate(text);
    assert text[1..][4] == '+';
    FirstOfYear();
    Midnight();
    RestBack(0, 0);
    NoneEnds(text);
    ParsedIs(Time(1_767_225_600, 0), text, "00:00:00Z", date, 0);
    Written(text);
  }

  lemma NoneEnds(text: string)
    requires text == "2026-+1-01"
    ensures forall i :: 0 <= i < |text| ==> text[i] !in "Tt "
  {
  }

  lemma Written(text: string)
    requires text == "2026-+1-01"
    ensures text + ['T'] + "00:00:00Z" == "2026-+1-01T00:00:00Z"
  {
  }

  lemma Midnight()
    ensures Clock(0) + Fraction(0) + "Z" == "00:00:00Z"
  {
    DayDigits();
    hide Padded;
  }

  lemma DateWithPlus()
    ensures ParseDate("2026-+1-01") == Some(Date(2026, 1, 1))
  {
    var year, month, day := "2026", "+1", "01";
    DigitsOfDate();
    PlusOne();
    FirstOfYear();
    hide Split, ParseNat, ParseU32, ParseFields, AllDigits, ParseDate, Exists;
    SplitThree(year, month, day, '-');
    FieldsBack(Date(2026, 1, 1), year, month, day);
    PlainDate("2026-+1-01");
    assert "2026-+1-01" == year + ['-'] + month + ['-'] + day;
  }

  lemma DigitsOfDate()
    ensures AllDigits("2026") && ParseNat("2026") == 2026 && ParseU32("01") == Some(1)
  {
    YearDigits();
    DayDigits();
    PaddedParses(2026, 4);
    TwoBack(1);
    hide Padded, ParseNat, ParseU32;
  }

  lemma PlainDate(text: string)
    requires text != [] && IsDigit(text[0])
    ensures ParseDate(text) == ParseFields(0, Split(text, '-'))
  {
  }

  lemma PlusOne()
    ensures ParseU32("+1") == Some(1)
  {
    assert "+1"[1..] == "1" && "1"[..0] == "";
  }

  lemma YearDigits()
    ensures Padded(2026, 4) == "2026"
  {
    assert Padded(2, 1) == "2";
    assert Padded(20, 2) == "20";
    assert Padded(202, 3) == "202";
  }

  lemma DayDigits()
    ensures Padded(1, 2) == "01" && Padded(0, 2) == "00"
  {
    assert Padded(0, 1) == "0";
  }

  lemma FirstOfYear()
    ensures Exists(Date(2026, 1, 1)) && DaysFromCivil(Date(2026, 1, 1)) * 86_400 == 1_767_225_600
  {
  }
}
