/** What a JSON text means: the parser's grammar as functions of the characters to come. */
module JsonParser {
  import opened JsonValue

  /** The next character's code, -1 at the end. */
  function Peek(t: string): int {
    if t == [] then -1 else t[0] as int
  }

  predicate IsSpace(ch: int) {
    ch == ' ' as int || ch == '\t' as int || ch == '\n' as int || ch == '\r' as int
  }

  function SkipSpace(t: string): (rest: string)
    ensures |rest| <= |t| && !IsSpace(Peek(rest))
  {
    if IsSpace(Peek(t)) then SkipSpace(t[1..]) else t
  }

  /** The character after spaces. */
  predicate Expects(t: string, c: char) {
    Peek(SkipSpace(t)) == c as int
  }

  /** The text begins with the given word. */
  predicate BeginsWith(t: string, word: string)
    ensures BeginsWith(t, word) ==> |word| <= |t|
  {
    word == [] || (t != [] && t[0] == word[0] && BeginsWith(t[1..], word[1..]))
  }

  // ----- Strings -----

  function HexValue(ch: int): (v: int)
    ensures -1 <= v < 16
  {
    if '0' as int <= ch <= '9' as int then ch - '0' as int
    else if 'A' as int <= ch <= 'F' as int then ch - 'A' as int + 10
    else if 'a' as int <= ch <= 'f' as int then ch - 'a' as int + 10
    else -1
  }

  function Digit(t: string, i: nat): int {
    if i < |t| then HexValue(t[i] as int) else -1
  }

  /** Four hexadecimal digits, or -1. */
  function QuadHex(t: string): (v: int)
    ensures -1 <= v < 0x1_0000
    ensures v >= 0 ==> 4 <= |t|
  {
    var a, b, c, d := Digit(t, 0), Digit(t, 1), Digit(t, 2), Digit(t, 3);
    if a < 0 || b < 0 || c < 0 || d < 0 then -1 else ((a * 16 + b) * 16 + c) * 16 + d
  }

  datatype CodePoint = NoCodePoint | CodePoint(code: nat, rest: string)

  /** A code point after \\u: one group of four digits, or a pair of surrogates. */
  function ReadCodePoint(t: string): (r: CodePoint)
    ensures r.CodePoint? ==> |r.rest| < |t| && r.code < 0x11_0000 && !(0xd800 <= r.code <= 0xdfff)
  {
    var first := QuadHex(t);
    if first < 0 then NoCodePoint
    else if !(0xd800 <= first <= 0xdfff) then CodePoint(first, t[4..])
    else if 0xdc00 <= first then NoCodePoint
    else if !BeginsWith(t[4..], "\\u") then NoCodePoint
    else
      var second := QuadHex(t[6..]);
      if !(0xdc00 <= second <= 0xdfff) then NoCodePoint
      else CodePoint((first - 0xd800) * 0x400 + (second - 0xdc00) + 0x1_0000, t[10..])
  }

  /** The bytes of a code point. */
  function Utf8(code: nat): string
    requires code < 0x11_0000
  {
    var last := (0x80 + code % 64) as char;
    if code < 0x80 then [code as char]
    else if code < 0x800 then [(0xc0 + code / 64) as char, last]
    else
      var middle := (0x80 + code / 64 % 64) as char;
      if code < 0x1_0000 then [(0xe0 + code / 0x1000) as char, middle, last]
      else [(0xf0 + code / 0x4_0000) as char, (0x80 + code / 0x1000 % 64) as char, middle, last]
  }

  /** The code point that UTF-8 assigns to bytes of each length. */
  function CodeOf(bytes: string): int
    requires 1 <= |bytes| <= 4
  {
    var a := bytes[0] as int;
    if |bytes| == 1 then a
    else
      var b := bytes[1] as int - 0x80;
      if |bytes| == 2 then (a - 0xc0) * 64 + b
      else
        var c := bytes[2] as int - 0x80;
        if |bytes| == 3 then ((a - 0xe0) * 64 + b) * 64 + c
        else (((a - 0xf0) * 64 + b) * 64 + c) * 64 + (bytes[3] as int - 0x80)
  }

  /** The bytes written for a code point stand for it, there are no more of them than needed, the first one tells how
  many, and all after the first are continuation bytes. */
  lemma Utf8IsRight(code: nat)
    requires code < 0x11_0000
    ensures 1 <= |Utf8(code)| <= 4 && CodeOf(Utf8(code)) == code
    ensures forall i :: 1 <= i < |Utf8(code)| ==> 0x80 <= Utf8(code)[i] as int < 0xc0
    ensures |Utf8(code)| == if code < 0x80 then 1 else if code < 0x800 then 2 else if code < 0x1_0000 then 3 else 4
    ensures var first := Utf8(code)[0] as int;
            if code < 0x80 then first < 0x80
            else if code < 0x800 then 0xc0 <= first < 0xe0
            else if code < 0x1_0000 then 0xe0 <= first < 0xf0
            else 0xf0 <= first < 0xf8
  {
    assert code / 64 / 64 == code / 0x1000 && code / 0x1000 / 64 == code / 0x4_0000;
  }

  datatype Literal = BadString | Literal(s: string, rest: string)

  function Unescape(c: int): Option<char> {
    if c == '"' as int then Some('"')
    else if c == '\\' as int then Some('\\')
    else if c == '/' as int then Some('/')
    else if c == 'b' as int then Some(BACKSPACE)
    else if c == 'f' as int then Some(FORM_FEED)
    else if c == 'n' as int then Some('\n')
    else if c == 'r' as int then Some('\r')
    else if c == 't' as int then Some('\t')
    else None
  }

  /** What a backslash and the characters after it stand for. */
  function ReadEscape(t: string): (r: Literal)
    ensures r.Literal? ==> |r.rest| < |t|
  {
    if Peek(t) == 'u' as int then
      var code := ReadCodePoint(t[1..]);
      if code.NoCodePoint? then BadString else Literal(Utf8(code.code), code.rest)
    else
      var c := Unescape(Peek(t));
      if c.None? then BadString else Literal([c.value], t[1..])
  }

  /** The rest of a literal, after what has been read, up to the closing quote. */
  function ReadString(t: string, read: string): (r: Literal)
    ensures r.Literal? ==> |r.rest| < |t|
    decreases |t|
  {
    var ch := Peek(t);
    if ch < ' ' as int then BadString
    else if ch == '"' as int then Literal(read, t[1..])
    else if ch == '\\' as int then
      var c := ReadEscape(t[1..]);
      if c.BadString? then BadString else ReadString(c.rest, read + c.s)
    else ReadString(t[1..], read + [t[0]])
  }

  // ----- Values -----

  datatype Parsed = Malformed | Parsed(value: Value, rest: string)

  /** The characters of a number, and the rest. */
  function NumberChars(t: string): (n: nat)
    ensures n <= |t|
  {
    if t != [] && IsNumberChar(t[0]) then 1 + NumberChars(t[1..]) else 0
  }

  function ReadNumber(f: Numbers, t: string): (r: Parsed)
    requires t != [] && IsNumberChar(t[0])
    ensures r.Parsed? ==> |r.rest| < |t|
  {
    var k := NumberChars(t);
    var n := f.read(t[..k]);
    if n.None? then Malformed else Parsed(Number(n.value), t[k..])
  }

  /** The rest of a word that began with t's first character. */
  function ReadWord(t: string, word: string, v: Value): (r: Parsed)
    requires t != []
    ensures r.Parsed? ==> |r.rest| < |t|
  {
    if BeginsWith(t[1..], word) then Parsed(v, t[1 + |word|..]) else Malformed
  }

  /** Puts a member in its place, or replaces the value of its key. */
  function Insert(members: seq<Member>, key: string, v: Value): seq<Member> {
    if members == [] then [Member(key, v)]
    else if members[0].key == key then [Member(key, v)] + members[1..]
    else if Before(key, members[0].key) then [Member(key, v)] + members
    else [members[0]] + Insert(members[1..], key, v)
  }

  function ReadText(t: string): (r: Parsed)
    ensures r.Parsed? ==> |r.rest| < |t|
  {
    var r := ReadString(t, []);
    if r.BadString? then Malformed else Parsed(Str(r.s), r.rest)
  }

  /** A value, under depth more arrays at most. */
  function ReadValue(f: Numbers, t: string, depth: nat): (r: Parsed)
    ensures r.Parsed? ==> |r.rest| < |t|
    decreases |t|, 1
  {
    ReadToken(f, SkipSpace(t), depth)
  }

  /** A value that starts right here. */
  function ReadToken(f: Numbers, t: string, depth: nat): (r: Parsed)
    ensures r.Parsed? ==> |r.rest| < |t|
    decreases |t|, 0
  {
    var ch := Peek(t);
    if ch == -1 then Malformed
    else if ch == 'n' as int then ReadWord(t, "ull", Null)
    else if ch == 'f' as int then ReadWord(t, "alse", Bool(false))
    else if ch == 't' as int then ReadWord(t, "rue", Bool(true))
    else if ch == '"' as int then ReadText(t[1..])
    else if ch == '[' as int then
      if depth == 0 then Malformed
      else if Expects(t[1..], ']') then Parsed(Array([]), SkipSpace(t[1..])[1..])
      else ReadItems(f, SkipSpace(t[1..]), depth - 1, [])
    else if ch == '{' as int then
      if depth == 0 then Malformed
      else if Expects(t[1..], '}') then Parsed(Object([]), SkipSpace(t[1..])[1..])
      else ReadMembers(f, SkipSpace(t[1..]), depth, [])
    else if '0' as int <= ch <= '9' as int || ch == '-' as int then ReadNumber(f, t)
    else Malformed
  }

  /** The rest of an array, after the items so far. */
  function ReadItems(f: Numbers, t: string, depth: nat, items: seq<Value>): (r: Parsed)
    ensures r.Parsed? ==> |r.rest| < |t|
    decreases |t|, 2
  {
    var item := ReadValue(f, t, depth);
    if item.Malformed? then Malformed else
      var all := items + [item.value];
      var next := SkipSpace(item.rest);
      if Peek(next) == ',' as int then ReadItems(f, next[1..], depth, all)
      else if Peek(next) == ']' as int then Parsed(Array(all), next[1..])
      else Malformed
  }

  function ReadKey(t: string): (r: Literal)
    ensures r.Literal? ==> |r.rest| < |t|
  {
    if !Expects(t, '"') then BadString else
      var key := ReadString(SkipSpace(t)[1..], []);
      if key.BadString? || !Expects(key.rest, ':') then BadString
      else Literal(key.s, SkipSpace(key.rest)[1..])
  }

  datatype Pair = BadPair | Pair(member: Member, rest: string)

  /** A key, a colon, and a value. */
  function ReadMember(f: Numbers, t: string, depth: nat): (r: Pair)
    ensures r.Pair? ==> |r.rest| < |t|
    decreases |t|, 2
  {
    var key := ReadKey(t);
    if key.BadString? then BadPair else
      var item := ReadValue(f, key.rest, depth);
      if item.Malformed? then BadPair else Pair(Member(key.s, item.value), item.rest)
  }

  function ReadMembers(f: Numbers, t: string, depth: nat, members: seq<Member>): (r: Parsed)
    ensures r.Parsed? ==> |r.rest| < |t|
    decreases |t|, 3
  {
    var pair := ReadMember(f, t, depth);
    if pair.BadPair? then Malformed else
      var all := Insert(members, pair.member.key, pair.member.value);
      var next := SkipSpace(pair.rest);
      if Peek(next) == ',' as int then ReadMembers(f, next[1..], depth, all)
      else if Peek(next) == '}' as int then Parsed(Object(all), next[1..])
      else Malformed
  }

  const MAX_DEPTH := 100

  /** A document; what follows the value is ignored. */
  function Read(f: Numbers, t: string): Parsed {
    ReadValue(f, t, MAX_DEPTH)
  }
}
