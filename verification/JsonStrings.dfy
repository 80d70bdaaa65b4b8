/** Every way to write a character of a JSON string: as it is, as a backslash and a letter, or as one or two UTF-16
units in hexadecimal digits of either case. Section 7 of RFC 8259. */
module JsonStrings {
  import opened Sequences
  import opened JsonValue
  import opened JsonParser
  import opened JsonRoundTrip

  // ----- Characters -----

  /** A hexadecimal digit in either case. */
  predicate IsDigit(c: char, v: nat) {
    (v < 10 && c as int == 48 + v) || (10 <= v < 16 && (c as int == 55 + v || c as int == 87 + v))
  }

  /** Four digits for sixteen bits. */
  predicate Spells(t: string, unit: nat) {
    && |t| == 4 && IsDigit(t[0], unit / 0x1000) && IsDigit(t[1], unit / 0x100 % 16)
    && IsDigit(t[2], unit / 16 % 16) && IsDigit(t[3], unit % 16)
  }

  /** How a character of a string may be written: as it is, as a backslash and a letter, as one UTF-16 unit, or as a
  pair of them. */
  datatype Char =
    | Raw(c: char)
    | Short(letter: char)
    | Unit(digits: string, code: nat)
    | Surrogates(high: string, low: string, code: nat)

  predicate IsChar(c: Char) {
    match c
    case Raw(c) => c as int >= 32 && c as int != 34 && c as int != 92
    case Short(letter) => letter in "\"\\/bfnrt"
    case Unit(digits, code) => Spells(digits, code) && !(0xd800 <= code < 0xe000)
    case Surrogates(high, low, code) =>
      && 0x1_0000 <= code < 0x11_0000
      && Spells(high, 0xd800 + (code - 0x1_0000) / 0x400) && Spells(low, 0xdc00 + (code - 0x1_0000) % 0x400)
  }

  function CharText(c: Char): string {
    match c
    case Raw(c) => [c]
    case Short(letter) => ['\\', letter]
    case Unit(digits, _) => "\\u" + digits
    case Surrogates(high, low, _) => "\\u" + (high + ("\\u" + low))
  }

  /** The bytes that a character stands for. */
  function CharBytes(c: Char): string
    requires IsChar(c)
  {
    match c
    case Raw(c) => [c]
    case Short(letter) => [ShortValue(letter) as char]
    case Unit(_, code) => Utf8(code)
    case Surrogates(_, _, code) => Utf8(code)
  }

  function ShortValue(letter: char): (v: nat)
    ensures v < 128
  {
    if letter == 'b' then 8
    else if letter == 't' then 9
    else if letter == 'n' then 10
    else if letter == 'f' then 12
    else if letter == 'r' then 13
    else if letter == '"' then 34
    else if letter == '/' then 47
    else 92
  }

  /** What the printer makes of a character: a backslash and a letter for the eight that have one, four digits for
  another control character, and itself for all others. */
  lemma EscapeIs(c: char)
    ensures var v := c as int;
            if v in {8, 9, 10, 12, 13, 34, 47, 92} then
              exists letter :: letter in "\"\\/bfnrt" && Escape(c) == ['\\', letter] && ShortValue(letter) == v
            else if v < 32 || v == 127 then
              |Escape(c)| == 6 && Escape(c)[..2] == "\\u" && Spells(Escape(c)[2..], v)
            else Escape(c) == [c]
  {
    var v := c as int;
    if v in {8, 9, 10, 12, 13, 34, 47, 92} {
      assert Escape(c) == ['\\', Escape(c)[1]];
    } else if v < 32 || v == 127 {
      assert Escape(c)[2..] == Hex4(v);
      DigitReads(HexDigit(v / 16 % 16), v / 16 % 16);
      DigitReads(HexDigit(v % 16), v % 16);
    }
  }

  lemma DigitReads(c: char, v: nat)
    ensures IsDigit(c, v) <==> HexValue(c as int) == v
  {
  }

  /** Four digits and the number they stand for. */
  lemma UnitReads(digits: string, unit: nat, t: string)
    requires Spells(digits, unit)
    ensures QuadHex(digits + t) == unit < 0x1_0000 && (digits + t)[4..] == t
  {
    DigitReads(digits[0], unit / 0x1000);
    DigitReads(digits[1], unit / 0x100 % 16);
    DigitReads(digits[2], unit / 16 % 16);
    DigitReads(digits[3], unit % 16);
    FourDigits(unit);
  }

  /** Whatever four digits are read spell their number. */
  lemma QuadSpells(t: string)
    ensures QuadHex(t) >= 0 ==> Spells(t[..4], QuadHex(t))
  {
    if QuadHex(t) >= 0 {
      var a, b, c, d := Digit(t, 0), Digit(t, 1), Digit(t, 2), Digit(t, 3);
      DigitsOf(a, b, c, d, QuadHex(t));
      DigitReads(t[0], a);
      DigitReads(t[1], b);
      DigitReads(t[2], c);
      DigitReads(t[3], d);
    }
  }

  lemma DigitsOf(a: nat, b: nat, c: nat, d: nat, v: nat)
    requires a < 16 && b < 16 && c < 16 && d < 16 && v == ((a * 16 + b) * 16 + c) * 16 + d
    ensures v / 0x1000 == a && v / 0x100 % 16 == b && v / 16 % 16 == c && v % 16 == d
  {
    assert v / 16 == (a * 16 + b) * 16 + c;
    assert v / 0x100 == a * 16 + b;
  }

  /** A code point of one unit, or one above those as the pair of its surrogates, is read as itself. */
  lemma CodePointReads(c: Char, t: string)
    requires IsChar(c) && (c.Unit? || c.Surrogates?)
    ensures ReadCodePoint(CharText(c)[2..] + t) == CodePoint(c.code, t)
  {
    match c
    case Unit(digits, code) => {
      assert CharText(c)[2..] == digits;
      UnitReads(digits, code, t);
    }
    case Surrogates(high, low, code) => {
      var first, second := 0xd800 + (code - 0x1_0000) / 0x400, 0xdc00 + (code - 0x1_0000) % 0x400;
      assert CharText(c)[2..] + t == high + ("\\u" + (low + t));
      UnitReads(high, first, "\\u" + (low + t));
      UnitReads(low, second, t);
      PairReads(high + ("\\u" + (low + t)), first, second, low + t, t);
    }
  }

  lemma PairReads(all: string, first: nat, second: nat, u: string, t: string)
    requires QuadHex(all) == first && 4 <= |all| && all[4..] == "\\u" + u
    requires QuadHex(u) == second && 4 <= |u| && u[4..] == t
    requires 0xd800 <= first < 0xdc00 <= second < 0xe000
    ensures ReadCodePoint(all) == CodePoint((first - 0xd800) * 0x400 + (second - 0xdc00) + 0x1_0000, t)
  {
    WordBegins("\\u", u);
    assert all[6..] == all[4..][2..] && all[10..] == all[6..][4..];
  }

  lemma LetterReads(letter: char, t: string)
    requires letter in "\"\\/bfnrt"
    ensures ReadEscape([letter] + t) == Literal([ShortValue(letter) as char], t)
  {
    Cons(letter, t);
  }

  lemma EscapeReads(c: Char, t: string)
    requires IsChar(c) && !c.Raw?
    ensures CharText(c)[0] == '\\' && ReadEscape(CharText(c)[1..] + t) == Literal(CharBytes(c), t)
  {
    if c.Short? {
      assert CharText(c)[1..] == [c.letter];
      LetterReads(c.letter, t);
    } else {
      CodePointReads(c, t);
      assert CharText(c)[1..] + t == ['u'] + (CharText(c)[2..] + t);
      Cons('u', CharText(c)[2..] + t);
    }
  }

  lemma EscapeGoesOn(u: string, bytes: string, t: string, read: string)
    requires ReadEscape(u) == Literal(bytes, t)
    ensures ReadString(['\\'] + u, read) == ReadString(t, read + bytes)
  {
    Cons('\\', u);
  }

  lemma CharReads(c: Char, t: string, read: string)
    requires IsChar(c)
    ensures ReadString(CharText(c) + t, read) == ReadString(t, read + CharBytes(c))
  {
    if c.Raw? {
      PlainReads(c.c, t, read);
    } else {
      EscapeReads(c, t);
      FrontAnd(CharText(c), '\\', t);
      EscapeGoesOn(CharText(c)[1..] + t, CharBytes(c), t, read);
    }
  }

  lemma FrontAnd(s: string, c: char, t: string)
    requires s != [] && s[0] == c
    ensures s + t == [c] + (s[1..] + t)
  {
  }

  // ----- Strings -----

  predicate AreChars(cs: seq<Char>) {
    forall i :: 0 <= i < |cs| ==> IsChar(cs[i])
  }

  /** The characters and the closing quote, and what follows. */
  function CharsAnd(cs: seq<Char>, t: string): string {
    if cs == [] then ['"'] + t else CharText(cs[0]) + CharsAnd(cs[1..], t)
  }

  function CharsBytes(cs: seq<Char>): string
    requires AreChars(cs)
  {
    if cs == [] then [] else CharBytes(cs[0]) + CharsBytes(cs[1..])
  }

  lemma {:induction false} CharsRead(cs: seq<Char>, t: string, read: string)
    requires AreChars(cs)
    ensures ReadString(CharsAnd(cs, t), read) == Literal(read + CharsBytes(cs), t)
    decreases |cs|
  {
    if cs == [] {
      Cons('"', t);
      assert read + [] == read;
    } else {
      CharReads(cs[0], CharsAnd(cs[1..], t), read);
      CharsRead(cs[1..], t, read + CharBytes(cs[0]));
      Associates(read, CharBytes(cs[0]), CharsBytes(cs[1..]));
    }
  }

  /** Whatever is read as an escape is one. */
  lemma EscapeParts(t: string) returns (c: Char)
    requires ReadEscape(t).Literal?
    ensures IsChar(c) && !c.Raw? && ReadEscape(t).s == CharBytes(c)
    ensures ['\\'] + t == CharText(c) + ReadEscape(t).rest
  {
    if t[0] == 'u' {
      UnicodeIs(t);
      c := CodePointParts(t[1..]);
      AfterBackslash(t);
    } else {
      c := Short(t[0]);
      ShortIs(t);
      AfterBackslash(t);
    }
  }

  lemma AfterBackslash(t: string)
    requires t != []
    ensures ['\\', t[0]] + t[1..] == ['\\'] + t
    ensures t[0] == 'u' ==> "\\u" + t[1..] == ['\\'] + t
  {
  }

  lemma UnicodeIs(t: string)
    requires ReadEscape(t).Literal? && t[0] == 'u'
    ensures ReadCodePoint(t[1..]).CodePoint?
    ensures ReadEscape(t) == Literal(Utf8(ReadCodePoint(t[1..]).code), ReadCodePoint(t[1..]).rest)
  {
  }

  lemma ShortIs(t: string)
    requires ReadEscape(t).Literal? && t[0] != 'u'
    ensures t[0] in "\"\\/bfnrt" && ReadEscape(t) == Literal([ShortValue(t[0]) as char], t[1..])
  {
  }

  lemma CodePointParts(t: string) returns (c: Char)
    requires ReadCodePoint(t).CodePoint?
    ensures IsChar(c) && (c.Unit? || c.Surrogates?) && c.code == ReadCodePoint(t).code
    ensures "\\u" + t == CharText(c) + ReadCodePoint(t).rest
  {
    var first := QuadHex(t);
    QuadSpells(t);
    if !(0xd800 <= first <= 0xdfff) {
      c := Unit(t[..4], first);
      assert t == t[..4] + t[4..];
    } else {
      QuadSpells(t[6..]);
      c := PairParts(t, first, QuadHex(t[6..]));
    }
  }

  lemma PairParts(t: string, first: nat, second: nat) returns (c: Char)
    requires ReadCodePoint(t).CodePoint? && 10 <= |t|
    requires first == QuadHex(t) && 0xd800 <= first <= 0xdfff && second == QuadHex(t[6..])
    requires Spells(t[..4], first) && Spells(t[6..][..4], second)
    ensures IsChar(c) && c.Surrogates? && c.code == ReadCodePoint(t).code
    ensures "\\u" + t == CharText(c) + ReadCodePoint(t).rest
  {
    PairIs(t, first, second);
    c := Surrogates(t[..4], t[6..][..4], (first - 0xd800) * 0x400 + (second - 0xdc00) + 0x1_0000);
    Halves(first, second, c.code);
    PairText(t, c.high, c.low, t[10..]);
  }

  lemma PairIs(t: string, first: nat, second: nat)
    requires ReadCodePoint(t).CodePoint? && 10 <= |t|
    requires first == QuadHex(t) && 0xd800 <= first <= 0xdfff && second == QuadHex(t[6..])
    ensures first < 0xdc00 <= second < 0xe000 && BeginsWith(t[4..], "\\u")
    ensures ReadCodePoint(t) == CodePoint((first - 0xd800) * 0x400 + (second - 0xdc00) + 0x1_0000, t[10..])
  {
  }

  lemma Halves(first: nat, second: nat, code: nat)
    requires 0xd800 <= first < 0xdc00 <= second < 0xe000
    requires code == (first - 0xd800) * 0x400 + (second - 0xdc00) + 0x1_0000
    ensures 0x1_0000 <= code < 0x11_0000
    ensures 0xd800 + (code - 0x1_0000) / 0x400 == first && 0xdc00 + (code - 0x1_0000) % 0x400 == second
  {
  }

  lemma PairText(t: string, high: string, low: string, rest: string)
    requires 10 <= |t| && BeginsWith(t[4..], "\\u") && high == t[..4] && low == t[6..][..4] && rest == t[10..]
    ensures "\\u" + t == "\\u" + (high + ("\\u" + low)) + rest
  {
    BeginsParts(t[4..], "\\u");
    assert t[6..] == t[4..][2..] && rest == t[6..][4..];
    assert t[6..] == low + rest;
    assert t == high + ("\\u" + (low + rest));
    assert "\\u" + (low + rest) == ("\\u" + low) + rest;
    Associates(high, "\\u" + low, rest);
    Associates("\\u", high + ("\\u" + low), rest);
  }

  lemma {:induction false} BeginsParts(t: string, word: string)
    requires BeginsWith(t, word)
    ensures t == word + t[|word|..]
  {
    if word != [] {
      BeginsParts(t[1..], word[1..]);
      assert t == [t[0]] + t[1..] && word == [word[0]] + word[1..];
      assert t[1..][|word[1..]|..] == t[|word|..];
      Associates([t[0]], word[1..], t[|word|..]);
    }
  }

  /** Whatever is read as the rest of a string literal is characters and a quote. */
  lemma {:induction false} StringParts(t: string, read: string) returns (cs: seq<Char>)
    requires ReadString(t, read).Literal?
    ensures AreChars(cs) && t == CharsAnd(cs, ReadString(t, read).rest)
    ensures ReadString(t, read).s == read + CharsBytes(cs)
    decreases |t|
  {
    var c;
    if t[0] == '"' {
      return [];
    } else if t[0] == '\\' {
      c := EscapeParts(t[1..]);
      var r := ReadEscape(t[1..]);
      var more := StringParts(r.rest, read + r.s);
      cs := [c] + more;
      assert t == ['\\'] + t[1..];
    } else {
      c := Raw(t[0]);
      var more := StringParts(t[1..], read + [t[0]]);
      cs := [c] + more;
      assert t == [t[0]] + t[1..];
    }
  }
}
