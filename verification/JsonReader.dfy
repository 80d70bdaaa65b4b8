/** The JSON parser itself: an input with one character of pushback, and recursive descent over it. */
module JsonReader {
  import opened JsonValue
  import opened JsonParser
  import JsonRoundTrip

  function Newlines(t: string): nat {
    if t == [] then 0 else Newlines(t[..|t| - 1]) + if t[|t| - 1] == '\n' then 1 else 0
  }

  /** Characters with a read position. The last character handed out stays current until the next one is
  asked for, so that it can be given back. */
  class Input {
    const text: string
    var cur: nat
    var consumed: bool
    var line: nat

    constructor (t: string)
      ensures Valid() && Rest() == t && text == t
    {
      text, cur, consumed, line := t, 0, false, 1;
    }

    ghost predicate Valid()
      reads this
    {
      cur <= |text| && (consumed ==> cur < |text|) && line == 1 + Newlines(text[..cur])
    }

    /** What comes after the characters handed out. */
    ghost function Rest(): string
      reads this
      requires Valid()
    {
      text[if consumed then cur + 1 else cur..]
    }

    /** The same with the last character given back. */
    ghost function Back(): string
      reads this
      requires Valid()
    {
      text[cur..]
    }

    method GetC() returns (ch: int)
      requires Valid()
      modifies this
      ensures Valid() && Back() == old(Rest()) && ch == Peek(old(Rest()))
      ensures Rest() == if ch == -1 then [] else old(Rest())[1..]
    {
      if consumed {
        if text[cur] == '\n' {
          line := line + 1;
        }
        assert text[..cur + 1][..cur] == text[..cur];
        cur := cur + 1;
      }
      if cur == |text| {
        consumed := false;
        return -1;
      }
      consumed := true;
      return text[cur] as int;
    }

    method UngetC()
      requires Valid()
      modifies this
      ensures Valid() && Rest() == Back() == old(Back())
    {
      consumed := false;
    }

    method SkipWs()
      requires Valid()
      modifies this
      ensures Valid() && Rest() == SkipSpace(old(Rest()))
    {
      var ch := GetC();
      while IsSpace(ch)
        invariant Valid() && ch == Peek(Back()) && SkipSpace(Back()) == SkipSpace(old(Rest()))
        invariant Rest() == if ch == -1 then [] else Back()[1..]
        decreases |Back()|
      {
        ch := GetC();
      }
      UngetC();
    }

    method Expect(expected: char) returns (ok: bool)
      requires Valid()
      modifies this
      ensures Valid() && ok == Expects(old(Rest()), expected)
      ensures Rest() == if ok then SkipSpace(old(Rest()))[1..] else SkipSpace(old(Rest()))
    {
      SkipWs();
      var ch := GetC();
      if ch != expected as int {
        UngetC();
        return false;
      }
      return true;
    }

    method Match(pattern: string) returns (ok: bool)
      requires Valid()
      modifies this
      ensures Valid() && ok == BeginsWith(old(Rest()), pattern)
      ensures ok ==> Rest() == old(Rest())[|pattern|..]
    {
      ghost var t := Rest();
      for i := 0 to |pattern|
        invariant Valid() && i <= |t| && Rest() == t[i..]
        invariant BeginsWith(t, pattern) == BeginsWith(t[i..], pattern[i..])
      {
        var ch := GetC();
        if ch != pattern[i] as int {
          UngetC();
          return false;
        }
        assert t[i..][1..] == t[i + 1..] && pattern[i..][1..] == pattern[i + 1..];
      }
      return true;
    }
  }

  method ParseQuadHex(input: Input) returns (code: int)
    requires input.Valid()
    modifies input
    ensures input.Valid() && code == QuadHex(old(input.Rest()))
    ensures code >= 0 ==> input.Rest() == old(input.Rest())[4..]
  {
    ghost var t := input.Rest();
    code := 0;
    for i := 0 to 4
      invariant input.Valid() && code == Leading(t, i) >= 0 && i <= |t| && input.Rest() == t[i..]
    {
      var ch := input.GetC();
      if ch == -1 {
        NotHex(t, i);
        return -1;
      }
      var hex := HexValue(ch);
      if hex < 0 {
        NotHex(t, i);
        input.UngetC();
        return -1;
      }
      code := code * 16 + hex;
    }
    FourLeading(t);
  }

  /** The value of the first k hexadecimal digits, or -1. */
  function Leading(t: string, k: nat): (v: int)
    ensures v >= -1
  {
    if k == 0 then 0 else
      var v := Leading(t, k - 1);
      if v < 0 || Digit(t, k - 1) < 0 then -1 else v * 16 + Digit(t, k - 1)
  }

  lemma NotHex(t: string, i: nat)
    requires i < 4 && Digit(t, i) < 0
    ensures QuadHex(t) == -1
  {
  }

  lemma FourLeading(t: string)
    ensures Leading(t, 4) == QuadHex(t)
  {
    assert Leading(t, 0) == 0;
    assert Leading(t, 1) == if Digit(t, 0) < 0 then -1 else Digit(t, 0);
    assert Leading(t, 2) == if Leading(t, 1) < 0 || Digit(t, 1) < 0 then -1 else Leading(t, 1) * 16 + Digit(t, 1);
    assert Leading(t, 3) == if Leading(t, 2) < 0 || Digit(t, 2) < 0 then -1 else Leading(t, 2) * 16 + Digit(t, 2);
  }

  method ParseCodePoint(input: Input) returns (ok: bool, bytes: string)
    requires input.Valid()
    modifies input
    ensures input.Valid()
    ensures var r := ReadCodePoint(old(input.Rest()));
            if ok then r.CodePoint? && input.Rest() == r.rest && bytes == Utf8(r.code) else r.NoCodePoint?
  {
    ghost var t := input.Rest();
    bytes := [];
    var first := ParseQuadHex(input);
    if first < 0 { return false, []; }
    if 0xd800 <= first <= 0xdfff {
      ok, bytes := ParsePair(input, t, first);
    } else {
      ok, bytes := true, Utf8(first);
    }
  }

  /** A pair of surrogates, after the first. */
  method ParsePair(input: Input, ghost t: string, first: int) returns (ok: bool, bytes: string)
    requires input.Valid() && first == QuadHex(t) && 0xd800 <= first <= 0xdfff && input.Rest() == t[4..]
    modifies input
    ensures input.Valid()
    ensures var r := ReadCodePoint(t);
            if ok then r.CodePoint? && input.Rest() == r.rest && bytes == Utf8(r.code) else r.NoCodePoint?
  {
    if 0xdc00 <= first { return false, []; }
    var second;
    ok, second := ParseSecond(input, t);
    if !ok { return false, []; }
    bytes := Utf8((first - 0xd800) * 0x400 + (second - 0xdc00) + 0x1_0000);
  }

  /** The second half of a surrogate pair. */
  method ParseSecond(input: Input, ghost t: string) returns (ok: bool, second: int)
    requires input.Valid() && |t| >= 4 && input.Rest() == t[4..]
    modifies input
    ensures input.Valid()
    ensures ok <==> BeginsWith(t[4..], "\\u") && 0xdc00 <= QuadHex(t[6..]) <= 0xdfff
    ensures ok ==> |t| >= 10 && second == QuadHex(t[6..]) && input.Rest() == t[10..]
  {
    second := -1;
    ok := ParsePairMark(input, t);
    if !ok {
      input.UngetC();
      return;
    }
    second := ParseQuadHex(input);
    ok := 0xdc00 <= second <= 0xdfff;
    assert ok ==> t[6..][4..] == t[10..];
  }

  /** The backslash and the u between the halves of a surrogate pair. */
  method ParsePairMark(input: Input, ghost t: string) returns (ok: bool)
    requires input.Valid() && |t| >= 4 && input.Rest() == t[4..]
    modifies input
    ensures input.Valid() && ok == BeginsWith(t[4..], "\\u")
    ensures ok ==> input.Rest() == t[6..]
  {
    PairMark(t[4..]);
    var ch := input.GetC();
    if ch != '\\' as int { return false; }
    ch := input.GetC();
    ok := ch == 'u' as int;
  }

  lemma PairMark(t: string)
    ensures BeginsWith(t, "\\u") <==> |t| >= 2 && t[0] == '\\' && t[1] == 'u'
    ensures |t| >= 2 ==> t[1..][1..] == t[2..]
  {
    assert "\\u"[1..] == "u" && "u"[1..] == [];
    assert BeginsWith(t, "\\u") <==> t != [] && t[0] == '\\' && BeginsWith(t[1..], "u");
    if t != [] {
      assert BeginsWith(t[1..], "u") <==> t[1..] != [] && t[1..][0] == 'u' && BeginsWith(t[1..][1..], []);
    }
  }

  /** The part of a string literal after its opening quote. */
  method ParseString(input: Input) returns (ok: bool, out: string)
    requires input.Valid()
    modifies input
    ensures input.Valid()
    ensures ReadString(old(input.Rest()), []) == if ok then Literal(out, input.Rest()) else BadString
  {
    out := [];
    while true
      invariant input.Valid() && ReadString(input.Rest(), out) == ReadString(old(input.Rest()), [])
      decreases |input.Rest()|
    {
      var ch := input.GetC();
      if ch < ' ' as int {
        input.UngetC();
        return false, out;
      } else if ch == '"' as int {
        return true, out;
      } else if ch == '\\' as int {
        var c;
        ok, c := ParseEscape(input);
        if !ok { return false, out; }
        out := out + c;
      } else {
        out := out + [ch as char];
      }
    }
  }

  method ParseEscape(input: Input) returns (ok: bool, c: string)
    requires input.Valid()
    modifies input
    ensures input.Valid()
    ensures ReadEscape(old(input.Rest())) == if ok then Literal(c, input.Rest()) else BadString
  {
    var ch := input.GetC();
    if ch == -1 { return false, []; }
    if ch == 'u' as int {
      ok, c := ParseCodePoint(input);
      return;
    }
    var plain := Unescape(ch);
    if plain.None? { return false, []; }
    return true, [plain.value];
  }

  method ParseNumber(input: Input) returns (digits: string)
    requires input.Valid()
    modifies input
    ensures input.Valid() && digits == old(input.Rest())[..NumberChars(old(input.Rest()))]
    ensures input.Rest() == old(input.Rest())[NumberChars(old(input.Rest()))..]
  {
    ghost var t := input.Rest();
    digits := [];
    var ch := input.GetC();
    while ch != -1 && IsNumberChar(ch as char)
      invariant input.Valid() && NumberSoFar(t, digits, input.Back())
      invariant ch == Peek(input.Back()) && input.Rest() == if ch == -1 then [] else input.Back()[1..]
      decreases |input.Back()|
    {
      NumberGoesOn(t, digits, input.Back());
      digits := digits + [ch as char];
      ch := input.GetC();
    }
    NumberIsOver(t, digits, input.Back());
    input.UngetC();
  }

  /** The text is these digits and what follows, which may go on with the number. */
  ghost predicate NumberSoFar(t: string, digits: string, back: string) {
    t == digits + back && NumberChars(t) == |digits| + NumberChars(back)
  }

  lemma NumberGoesOn(t: string, digits: string, back: string)
    requires NumberSoFar(t, digits, back) && back != [] && IsNumberChar(back[0])
    ensures NumberSoFar(t, digits + [back[0]], back[1..])
  {
    assert back == [back[0]] + back[1..];
    assert digits + ([back[0]] + back[1..]) == (digits + [back[0]]) + back[1..];
  }

  lemma NumberIsOver(t: string, digits: string, back: string)
    requires NumberSoFar(t, digits, back) && (back == [] || !IsNumberChar(back[0]))
    ensures digits == t[..NumberChars(t)] && back == t[NumberChars(t)..]
  {
    assert NumberChars(t) == |digits|;
  }

  /** A value; the arrays it may open are limited by depths, which each array lowers for its items. */
  method Parse(f: Numbers, input: Input, depths: nat) returns (ok: bool, out: Value)
    requires input.Valid()
    modifies input
    ensures input.Valid()
    ensures ReadValue(f, old(input.Rest()), depths) == if ok then Parsed(out, input.Rest()) else Malformed
    decreases |input.Rest()|, 1
  {
    input.SkipWs();
    ghost var t := input.Rest();
    var ch := input.GetC();
    ok, out := false, Null;
    if ch == 'n' as int {
      ok := input.Match("ull");
    } else if ch == 'f' as int {
      ok := input.Match("alse");
      out := Bool(false);
    } else if ch == 't' as int {
      ok := input.Match("rue");
      out := Bool(true);
    } else if ch == '"' as int {
      var s;
      ok, s := ParseString(input);
      out := Str(s);
    } else if ch == '[' as int {
      ok, out := ParseArray(f, input, depths, t);
    } else if ch == '{' as int {
      ok, out := ParseObject(f, input, depths, t);
    } else if '0' as int <= ch <= '9' as int || ch == '-' as int {
      input.UngetC();
      var digits := ParseNumber(input);
      var n := f.read(digits);
      if n.Some? {
        return true, Number(n.value);
      }
    } else {
      input.UngetC();
    }
  }

  method ParseArray(f: Numbers, input: Input, depths: nat, ghost t: string) returns (ok: bool, out: Value)
    requires input.Valid() && t != [] && t[0] == '[' && input.Rest() == t[1..]
    modifies input
    ensures input.Valid()
    ensures ReadToken(f, t, depths) == if ok then Parsed(out, input.Rest()) else Malformed
    decreases |input.Rest()|, 3
  {
    if depths == 0 { return false, Null; }
    ok := input.Expect(']');
    if ok { return true, Array([]); }
    ok, out := ParseItems(f, input, depths - 1);
  }

  method ParseItems(f: Numbers, input: Input, depths: nat) returns (ok: bool, out: Value)
    requires input.Valid()
    modifies input
    ensures input.Valid()
    ensures ReadItems(f, old(input.Rest()), depths, []) == if ok then Parsed(out, input.Rest()) else Malformed
    decreases |input.Rest()|, 2
  {
    ghost var all := ReadItems(f, input.Rest(), depths, []);
    var items := [];
    var more := true;
    while more
      invariant input.Valid() && |input.Rest()| <= |old(input.Rest())|
      invariant more ==> ReadItems(f, input.Rest(), depths, items) == all
      invariant !more ==> !Expects(input.Rest(), ',')
      invariant !more ==>
                  all == if Expects(input.Rest(), ']') then Parsed(Array(items), SkipSpace(input.Rest())[1..])
                  else Malformed
      decreases more, |input.Rest()|
    {
      var item;
      ok, item := Parse(f, input, depths);
      if !ok { return false, Null; }
      items := items + [item];
      SpaceOnce(input.Rest());
      more := input.Expect(',');
    }
    ok := input.Expect(']');
    out := Array(items);
  }

  lemma SpaceOnce(t: string)
    ensures SkipSpace(SkipSpace(t)) == SkipSpace(t)
  {
  }

  method ParseObject(f: Numbers, input: Input, depths: nat, ghost t: string) returns (ok: bool, out: Value)
    requires input.Valid() && t != [] && t[0] == '{' && input.Rest() == t[1..]
    modifies input
    ensures input.Valid()
    ensures ReadToken(f, t, depths) == if ok then Parsed(out, input.Rest()) else Malformed
    decreases |input.Rest()|, 3
  {
    if depths == 0 { return false, Null; }
    ObjectStarts(f, t, depths);
    ok := input.Expect('}');
    if ok { return true, Object([]); }
    ok, out := ParseMembers(f, input, depths);
  }

  lemma ObjectStarts(f: Numbers, t: string, depths: nat)
    requires t != [] && t[0] == '{' && depths > 0
    ensures ReadToken(f, t, depths) == if Expects(t[1..], '}') then Parsed(Object([]), SkipSpace(t[1..])[1..])
                                       else ReadMembers(f, SkipSpace(t[1..]), depths, [])
  {
  }

  method ParseKey(input: Input) returns (ok: bool, key: string)
    requires input.Valid()
    modifies input
    ensures input.Valid()
    ensures ReadKey(old(input.Rest())) == if ok then Literal(key, input.Rest()) else BadString
  {
    key := [];
    ok := input.Expect('"');
    if !ok { return; }
    ok, key := ParseString(input);
    if !ok { return; }
    ok := input.Expect(':');
  }

  method ParseMembers(f: Numbers, input: Input, depths: nat) returns (ok: bool, out: Value)
    requires input.Valid()
    modifies input
    ensures input.Valid()
    ensures ReadMembers(f, old(input.Rest()), depths, []) == if ok then Parsed(out, input.Rest()) else Malformed
    decreases |input.Rest()|, 2
  {
    ghost var all := ReadMembers(f, input.Rest(), depths, []);
    var members := [];
    var more := true;
    while more
      invariant input.Valid() && |input.Rest()| <= |old(input.Rest())|
      invariant more ==> ReadMembers(f, input.Rest(), depths, members) == all
      invariant !more ==> !Expects(input.Rest(), ',')
      invariant !more ==>
                  all == if Expects(input.Rest(), '}') then Parsed(Object(members), SkipSpace(input.Rest())[1..])
                  else Malformed
      decreases more, |input.Rest()|
    {
      var key, item;
      ok, key := ParseKey(input);
      if !ok { return false, Null; }
      ok, item := Parse(f, input, depths);
      if !ok { return false, Null; }
      members := Insert(members, key, item);
      SpaceOnce(input.Rest());
      more := input.Expect(',');
    }
    ok := input.Expect('}');
    out := Object(members);
  }

  /** A document; the first value counts, and the position after it is returned. */
  method ParseDocument(f: Numbers, text: string) returns (ok: bool, out: Value, rest: string)
    ensures Read(f, text) == if ok then Parsed(out, rest) else Malformed
    ensures ok ==> WellFormed(out) && Under(out, MAX_DEPTH)
  {
    var input := new Input(text);
    ok, out := Parse(f, input, MAX_DEPTH);
    rest := input.text[if input.consumed then input.cur + 1 else input.cur..];
    JsonRoundTrip.ValueIsGood(f, text, MAX_DEPTH);
  }
}
