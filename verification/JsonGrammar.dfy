/** Every JSON text: any white space between the tokens, any way to write a string, members in any order and keys more
than once. The parser's result is the meaning of the text, and it accepts no other text. Sections 2 to 7 of RFC 8259;
what a number may look like is left to the number reader. */
module JsonGrammar {
  import opened Sequences
  import opened JsonValue
  import opened JsonParser
  import opened JsonRoundTrip
  import opened JsonStrings

  /** A value as it is written, with the white space around its parts. */
  datatype Syntax =
    | Name(value: Value)
    | Digits(text: string, number: real)
    | Quote(chars: seq<Char>)
    | List(blank: string, items: Items)
    | Dict(blank: string, members: Members)

  datatype Items =
    | NoItems
    | OneItem(before: string, item: Syntax, after: string, more: Items)

  datatype Members =
    | NoMembers
    | OneMember(before: string, key: seq<Char>, colon: string, between: string, value: Syntax, after: string,
                more: Members)

  /** Spaces, tabs, line feeds and carriage returns. */
  predicate IsBlank(w: string) {
    forall i :: 0 <= i < |w| ==> w[i] as int == 32 || w[i] as int == 9 || w[i] as int == 10 || w[i] as int == 13
  }

  predicate IsSyntax(f: Numbers, s: Syntax) {
    match s
    case Name(v) => v.Null? || v.Bool?
    case Digits(text, n) => IsNumberText(text) && f.read(text) == Some(n)
    case Quote(cs) => AreChars(cs)
    case List(blank, items) => IsBlank(blank) && AreItems(f, items)
    case Dict(blank, members) => IsBlank(blank) && AreMembers(f, members)
  }

  predicate AreItems(f: Numbers, items: Items) {
    items.OneItem? ==>
      IsBlank(items.before) && IsSyntax(f, items.item) && IsBlank(items.after) && AreItems(f, items.more)
  }

  predicate AreMembers(f: Numbers, ms: Members) {
    ms.OneMember? ==>
      && IsBlank(ms.before) && AreChars(ms.key) && IsBlank(ms.colon) && IsBlank(ms.between) && IsSyntax(f, ms.value)
      && IsBlank(ms.after) && AreMembers(f, ms.more)
  }

  // ----- Texts -----

  /** The text of a value, and what follows it. */
  function TextAnd(s: Syntax, t: string): string
    decreases s, 0
  {
    match s
    case Name(v) => (if v.Null? then "null" else if v == Bool(true) then "true" else "false") + t
    case Digits(text, _) => text + t
    case Quote(cs) => ['"'] + CharsAnd(cs, t)
    case List(blank, items) => ['['] + if items.NoItems? then blank + ([']'] + t) else ItemsAnd(items, t)
    case Dict(blank, members) => ['{'] + if members.NoMembers? then blank + (['}'] + t) else MembersAnd(members, t)
  }

  /** Items, the closing bracket, and what follows it. */
  function ItemsAnd(items: Items, t: string): string
    requires items.OneItem?
    decreases items, 0
  {
    items.before + TextAnd(items.item, items.after + ItemsEnd(items.more, t))
  }

  function ItemsEnd(more: Items, t: string): string
    decreases more, 1
  {
    if more.NoItems? then [']'] + t else [','] + ItemsAnd(more, t)
  }

  function MembersAnd(ms: Members, t: string): string
    requires ms.OneMember?
    decreases ms, 0
  {
    ms.before + (['"'] + CharsAnd(ms.key, ms.colon + ([':'] + (ms.between + TextAnd(ms.value, ms.after
                                                                                    + MembersEnd(ms.more, t))))))
  }

  function MembersEnd(more: Members, t: string): string
    decreases more, 1
  {
    if more.NoMembers? then ['}'] + t else [','] + MembersAnd(more, t)
  }

  // ----- Meanings -----

  function Meaning(f: Numbers, s: Syntax): Value
    requires IsSyntax(f, s)
  {
    match s
    case Name(v) => v
    case Digits(_, n) => Number(n)
    case Quote(cs) => Str(CharsBytes(cs))
    case List(_, items) => Array(Values(f, items))
    case Dict(_, members) => Object(Stored(f, members, []))
  }

  function Values(f: Numbers, items: Items): seq<Value>
    requires AreItems(f, items)
  {
    if items.NoItems? then [] else [Meaning(f, items.item)] + Values(f, items.more)
  }

  /** The members stored one after the other: a key that comes again takes the later value. */
  function Stored(f: Numbers, ms: Members, before: seq<Member>): seq<Member>
    requires AreMembers(f, ms)
  {
    if ms.NoMembers? then before
    else Stored(f, ms.more, Insert(before, CharsBytes(ms.key), Meaning(f, ms.value)))
  }

  /** Every array and object lies under fewer than depth arrays. */
  predicate Fits(s: Syntax, depth: nat) {
    match s
    case List(_, items) => depth > 0 && ItemsFit(items, depth - 1)
    case Dict(_, members) => depth > 0 && MembersFit(members, depth)
    case _ => true
  }

  predicate ItemsFit(items: Items, depth: nat) {
    items.OneItem? ==> Fits(items.item, depth) && ItemsFit(items.more, depth)
  }

  predicate MembersFit(ms: Members, depth: nat) {
    ms.OneMember? ==> Fits(ms.value, depth) && MembersFit(ms.more, depth)
  }

  // ----- White space -----

  lemma {:induction false} BlankSkips(w: string, t: string)
    requires IsBlank(w)
    ensures SkipSpace(w + t) == SkipSpace(t)
  {
    if w == [] {
      assert w + t == t;
    } else {
      FrontAnd(w, w[0], t);
      Cons(w[0], w[1..] + t);
      BlankSkips(w[1..], t);
    }
  }

  lemma SkipsTo(w: string, c: char, t: string)
    requires IsBlank(w) && !IsSpace(c as int)
    ensures SkipSpace(w + ([c] + t)) == [c] + t && Peek([c] + t) == c as int && ([c] + t)[1..] == t
  {
    BlankSkips(w, [c] + t);
    Cons(c, t);
  }

  /** Blanks and a closing bracket or a comma do not go on with a number. */
  lemma BlankEnds(w: string, c: char, t: string)
    requires IsBlank(w) && !IsNumberChar(c)
    ensures Ends(w + ([c] + t))
  {
    if w != [] {
      assert !IsNumberChar(w[0]);
    }
  }

  // ----- Reading -----

  lemma DigitsRead(f: Numbers, text: string, n: real, t: string)
    requires IsNumberText(text) && f.read(text) == Some(n) && Ends(t)
    ensures var all := text + t;
            all != [] && IsNumberChar(all[0]) && ('0' <= all[0] <= '9' || all[0] == '-')
            && ReadNumber(f, all) == Parsed(Number(n), t)
  {
    NumberEnds(text, t);
    assert (text + t)[..|text|] == text;
  }

  lemma TextStarts(f: Numbers, s: Syntax, t: string)
    requires IsSyntax(f, s)
    ensures Starts(TextAnd(s, t)) && SkipSpace(TextAnd(s, t)) == TextAnd(s, t)
  {
    match s {
      case Name(v) => {
      }
      case Digits(text, n) => {
      }
      case _ => {
      }
    }
  }

  /** A value is read as its meaning, or refused when it lies too deep. */
  lemma TokenReads(f: Numbers, s: Syntax, t: string, depth: nat)
    requires IsSyntax(f, s) && (s.Digits? ==> Ends(t))
    ensures ReadToken(f, TextAnd(s, t), depth) == if Fits(s, depth) then Parsed(Meaning(f, s), t) else Malformed
    decreases s, 1
  {
    match s {
      case Name(v) => {
        NullReads(f, t, depth);
        BoolReads(f, v == Bool(true), t, depth);
      }
      case Digits(text, n) => {
        DigitsRead(f, text, n, t);
      }
      case Quote(cs) => {
        QuoteReads(f, cs, t, depth);
      }
      case List(blank, items) => {
        if items.NoItems? {
          EmptyListReads(f, blank, t, depth);
        } else {
          ListBegins(f, items, t, depth);
          if depth > 0 {
            ItemsRead(f, items, t, depth - 1, []);
            assert [] + Values(f, items) == Values(f, items);
          }
        }
      }
      case Dict(blank, members) => {
        if members.NoMembers? {
          EmptyDictReads(f, blank, t, depth);
        } else {
          DictBegins(f, members, t, depth);
          if depth > 0 {
            MembersRead(f, members, t, depth, []);
          }
        }
      }
    }
  }

  lemma QuoteReads(f: Numbers, cs: seq<Char>, t: string, depth: nat)
    requires AreChars(cs)
    ensures ReadToken(f, ['"'] + CharsAnd(cs, t), depth) == Parsed(Str(CharsBytes(cs)), t)
  {
    Cons('"', CharsAnd(cs, t));
    CharsRead(cs, t, []);
    assert [] + CharsBytes(cs) == CharsBytes(cs);
  }

  lemma EmptyListReads(f: Numbers, blank: string, t: string, depth: nat)
    requires IsBlank(blank)
    ensures ReadToken(f, ['['] + (blank + ([']'] + t)), depth)
         == if depth > 0 then Parsed(Array([]), t) else Malformed
  {
    Cons('[', blank + ([']'] + t));
    SkipsTo(blank, ']', t);
  }

  lemma EmptyDictReads(f: Numbers, blank: string, t: string, depth: nat)
    requires IsBlank(blank)
    ensures ReadToken(f, ['{'] + (blank + (['}'] + t)), depth)
         == if depth > 0 then Parsed(Object([]), t) else Malformed
  {
    Cons('{', blank + (['}'] + t));
    SkipsTo(blank, '}', t);
  }

  lemma ListBegins(f: Numbers, items: Items, t: string, depth: nat)
    requires AreItems(f, items) && items.OneItem?
    ensures ReadToken(f, ['['] + ItemsAnd(items, t), depth)
         == if depth == 0 then Malformed else ReadItems(f, ItemsAnd(items, t), depth - 1, [])
  {
    Cons('[', ItemsAnd(items, t));
    var u := TextAnd(items.item, items.after + ItemsEnd(items.more, t));
    TextStarts(f, items.item, items.after + ItemsEnd(items.more, t));
    BlankSkips(items.before, u);
    if depth > 0 {
      ItemsAfterSpace(f, ItemsAnd(items, t), depth - 1, []);
    }
  }

  lemma DictBegins(f: Numbers, ms: Members, t: string, depth: nat)
    requires AreMembers(f, ms) && ms.OneMember?
    ensures ReadToken(f, ['{'] + MembersAnd(ms, t), depth)
         == if depth == 0 then Malformed else ReadMembers(f, MembersAnd(ms, t), depth, [])
  {
    Cons('{', MembersAnd(ms, t));
    SkipsTo(ms.before, '"', CharsAnd(ms.key, ms.colon + AfterKey(ms, t)));
    if depth > 0 {
      MembersAfterSpace(f, MembersAnd(ms, t), depth, []);
    }
  }

  function AfterKey(ms: Members, t: string): string
    requires ms.OneMember?
  {
    [':'] + (ms.between + TextAnd(ms.value, ms.after + MembersEnd(ms.more, t)))
  }

  lemma ValueReads(f: Numbers, before: string, s: Syntax, t: string, depth: nat)
    requires IsBlank(before) && IsSyntax(f, s) && (s.Digits? ==> Ends(t))
    ensures ReadValue(f, before + TextAnd(s, t), depth)
         == if Fits(s, depth) then Parsed(Meaning(f, s), t) else Malformed
    decreases s, 2
  {
    TextStarts(f, s, t);
    BlankSkips(before, TextAnd(s, t));
    TokenReads(f, s, t, depth);
  }

  lemma ValuesUnfold(f: Numbers, items: Items, sofar: seq<Value>)
    requires AreItems(f, items) && items.OneItem?
    ensures sofar + Values(f, items) == sofar + [Meaning(f, items.item)] + Values(f, items.more)
    ensures items.more.NoItems? ==> sofar + Values(f, items) == sofar + [Meaning(f, items.item)]
  {
    Associates(sofar, [Meaning(f, items.item)], Values(f, items.more));
  }

  lemma ItemsRead(f: Numbers, items: Items, t: string, depth: nat, sofar: seq<Value>)
    requires AreItems(f, items) && items.OneItem?
    ensures ReadItems(f, ItemsAnd(items, t), depth, sofar)
         == if ItemsFit(items, depth) then Parsed(Array(sofar + Values(f, items)), t) else Malformed
    decreases items, 0
  {
    var end := ItemsEnd(items.more, t);
    var c, u := if items.more.NoItems? then ']' else ',', if items.more.NoItems? then t else ItemsAnd(items.more, t);
    BlankEnds(items.after, c, u);
    ValueReads(f, items.before, items.item, items.after + end, depth);
    SkipsTo(items.after, c, u);
    var v := Meaning(f, items.item);
    ValuesUnfold(f, items, sofar);
    if Fits(items.item, depth) && items.more.OneItem? {
      ItemsRead(f, items.more, t, depth, sofar + [v]);
    }
  }

  lemma KeyReads(f: Numbers, ms: Members, t: string)
    requires AreMembers(f, ms) && ms.OneMember?
    ensures ReadKey(MembersAnd(ms, t))
         == Literal(CharsBytes(ms.key), ms.between + TextAnd(ms.value, ms.after + MembersEnd(ms.more, t)))
  {
    var rest := ms.between + TextAnd(ms.value, ms.after + MembersEnd(ms.more, t));
    var u := ms.colon + ([':'] + rest);
    SkipsTo(ms.before, '"', CharsAnd(ms.key, u));
    CharsRead(ms.key, u, []);
    assert [] + CharsBytes(ms.key) == CharsBytes(ms.key);
    SkipsTo(ms.colon, ':', rest);
  }

  lemma MembersRead(f: Numbers, ms: Members, t: string, depth: nat, sofar: seq<Member>)
    requires AreMembers(f, ms) && ms.OneMember?
    ensures ReadMembers(f, MembersAnd(ms, t), depth, sofar)
         == if MembersFit(ms, depth) then Parsed(Object(Stored(f, ms, sofar)), t) else Malformed
    decreases ms, 0
  {
    var end := MembersEnd(ms.more, t);
    var c, u := if ms.more.NoMembers? then '}' else ',', if ms.more.NoMembers? then t else MembersAnd(ms.more, t);
    BlankEnds(ms.after, c, u);
    KeyReads(f, ms, t);
    ValueReads(f, ms.between, ms.value, ms.after + end, depth);
    SkipsTo(ms.after, c, u);
    if Fits(ms.value, depth) && ms.more.OneMember? {
      MembersRead(f, ms.more, t, depth, Insert(sofar, CharsBytes(ms.key), Meaning(f, ms.value)));
    }
  }

  // ----- Every text that is read -----

  lemma {:induction false} SpaceParts(t: string) returns (w: string)
    ensures IsBlank(w) && t == w + SkipSpace(t)
  {
    if IsSpace(Peek(t)) {
      var more := SpaceParts(t[1..]);
      w := [t[0]] + more;
      FrontAnd(w, t[0], SkipSpace(t));
      assert w[1..] == more && t == [t[0]] + t[1..];
    } else {
      w := [];
    }
  }

  /** The blanks before a character that is expected, and what follows it. */
  lemma ExpectParts(t: string, c: char) returns (w: string)
    requires Expects(t, c)
    ensures IsBlank(w) && t == w + ([c] + SkipSpace(t)[1..])
  {
    w := SpaceParts(t);
    assert SkipSpace(t) == [c] + SkipSpace(t)[1..];
  }

  lemma {:induction false} NumberStops(t: string)
    ensures Ends(t[NumberChars(t)..]) && forall i :: 0 <= i < NumberChars(t) ==> IsNumberChar(t[i])
  {
    if t != [] && IsNumberChar(t[0]) {
      NumberStops(t[1..]);
      assert t[1..][NumberChars(t[1..])..] == t[NumberChars(t)..];
      forall i | 0 <= i < NumberChars(t) ensures IsNumberChar(t[i]) {
        assert i > 0 ==> t[i] == t[1..][i - 1];
      }
    }
  }

  /** The text t is a value as it may be written, with this meaning, and what follows it. */
  ghost predicate IsText(f: Numbers, t: string, s: Syntax, depth: nat, r: Parsed) {
    && IsSyntax(f, s) && Fits(s, depth) && r.Parsed? && r.value == Meaning(f, s)
    && t == TextAnd(s, r.rest) && (s.Digits? ==> Ends(r.rest))
  }

  lemma NumberParts(f: Numbers, t: string, depth: nat) returns (s: Syntax)
    requires t != [] && ('0' <= t[0] <= '9' || t[0] == '-') && ReadNumber(f, t).Parsed?
    ensures IsText(f, t, s, depth, ReadNumber(f, t))
  {
    var k := NumberChars(t);
    NumberStops(t);
    s := Digits(t[..k], f.read(t[..k]).value);
    assert t == t[..k] + t[k..];
  }

  lemma WordParts(f: Numbers, t: string, word: string, v: Value, depth: nat) returns (s: Syntax)
    requires t != [] && ReadWord(t, word, v).Parsed? && (v.Null? || v.Bool?)
    requires [t[0]] + word == if v.Null? then "null" else if v == Bool(true) then "true" else "false"
    ensures IsText(f, t, s, depth, ReadWord(t, word, v))
  {
    BeginsParts(t[1..], word);
    s := Name(v);
    assert t == [t[0]] + t[1..];
    assert t[1..][|word|..] == t[1 + |word|..];
    Associates([t[0]], word, t[1 + |word|..]);
  }

  lemma TextParts(f: Numbers, t: string, depth: nat) returns (s: Syntax)
    requires t != [] && t[0] == '"' && ReadText(t[1..]).Parsed?
    ensures IsText(f, t, s, depth, ReadText(t[1..]))
  {
    var cs := StringParts(t[1..], []);
    s := Quote(cs);
    assert [] + CharsBytes(cs) == CharsBytes(cs);
    assert t == ['"'] + t[1..];
  }

  /** Whatever is read as a value that starts right here is one as it may be written. */
  lemma TokenParts(f: Numbers, t: string, depth: nat) returns (s: Syntax)
    requires ReadToken(f, t, depth).Parsed?
    ensures IsText(f, t, s, depth, ReadToken(f, t, depth))
    decreases |t|, 1
  {
    if t[0] == 'n' {
      s := WordParts(f, t, "ull", Null, depth);
    } else if t[0] == 'f' {
      s := WordParts(f, t, "alse", Bool(false), depth);
    } else if t[0] == 't' {
      s := WordParts(f, t, "rue", Bool(true), depth);
    } else if t[0] == '"' {
      s := TextParts(f, t, depth);
    } else if t[0] == '[' {
      s := ListParts(f, t, depth);
    } else if t[0] == '{' {
      s := DictParts(f, t, depth);
    } else {
      s := NumberParts(f, t, depth);
    }
  }

  lemma ListParts(f: Numbers, t: string, depth: nat) returns (s: Syntax)
    requires t != [] && t[0] == '[' && ReadToken(f, t, depth).Parsed?
    ensures IsText(f, t, s, depth, ReadToken(f, t, depth))
    decreases |t|, 0
  {
    assert t == ['['] + t[1..];
    if Expects(t[1..], ']') {
      var w := ExpectParts(t[1..], ']');
      s := List(w, NoItems);
    } else {
      ItemsAfterSpace(f, t[1..], depth - 1, []);
      var items := ItemsParts(f, t[1..], depth - 1, []);
      s := List([], items);
      assert [] + Values(f, items) == Values(f, items);
    }
  }

  lemma DictParts(f: Numbers, t: string, depth: nat) returns (s: Syntax)
    requires t != [] && t[0] == '{' && ReadToken(f, t, depth).Parsed?
    ensures IsText(f, t, s, depth, ReadToken(f, t, depth))
    decreases |t|, 0
  {
    assert t == ['{'] + t[1..];
    if Expects(t[1..], '}') {
      var w := ExpectParts(t[1..], '}');
      s := Dict(w, NoMembers);
    } else {
      MembersAfterSpace(f, t[1..], depth, []);
      var ms := MembersParts(f, t[1..], depth, []);
      s := Dict([], ms);
    }
  }

  lemma ValueParts(f: Numbers, t: string, depth: nat) returns (before: string, s: Syntax)
    requires ReadValue(f, t, depth).Parsed?
    ensures IsBlank(before) && IsText(f, SkipSpace(t), s, depth, ReadValue(f, t, depth))
    ensures t == before + TextAnd(s, ReadValue(f, t, depth).rest)
    decreases |t|, 2
  {
    before := SpaceParts(t);
    s := TokenParts(f, SkipSpace(t), depth);
  }

  lemma ItemsParts(f: Numbers, t: string, depth: nat, sofar: seq<Value>) returns (items: Items)
    requires ReadItems(f, t, depth, sofar).Parsed?
    ensures AreItems(f, items) && items.OneItem? && ItemsFit(items, depth)
    ensures ReadItems(f, t, depth, sofar).value == Array(sofar + Values(f, items))
    ensures t == ItemsAnd(items, ReadItems(f, t, depth, sofar).rest)
    decreases |t|, 3
  {
    var r := ReadValue(f, t, depth);
    var before, s := ValueParts(f, t, depth);
    if Expects(r.rest, ',') {
      var after := ExpectParts(r.rest, ',');
      var more := ItemsParts(f, SkipSpace(r.rest)[1..], depth, sofar + [r.value]);
      items := OneItem(before, s, after, more);
    } else {
      var after := ExpectParts(r.rest, ']');
      items := OneItem(before, s, after, NoItems);
    }
    ValuesUnfold(f, items, sofar);
  }

  lemma KeyParts(t: string) returns (before: string, cs: seq<Char>, colon: string)
    requires ReadKey(t).Literal?
    ensures IsBlank(before) && AreChars(cs) && IsBlank(colon) && ReadKey(t).s == CharsBytes(cs)
    ensures t == before + (['"'] + CharsAnd(cs, colon + ([':'] + ReadKey(t).rest)))
  {
    before := ExpectParts(t, '"');
    cs := StringParts(SkipSpace(t)[1..], []);
    assert [] + CharsBytes(cs) == CharsBytes(cs);
    colon := ExpectParts(ReadString(SkipSpace(t)[1..], []).rest, ':');
  }

  lemma MembersParts(f: Numbers, t: string, depth: nat, sofar: seq<Member>) returns (ms: Members)
    requires ReadMembers(f, t, depth, sofar).Parsed?
    ensures AreMembers(f, ms) && ms.OneMember? && MembersFit(ms, depth)
    ensures ReadMembers(f, t, depth, sofar).value == Object(Stored(f, ms, sofar))
    ensures t == MembersAnd(ms, ReadMembers(f, t, depth, sofar).rest)
    decreases |t|, 3
  {
    var before, key, colon := KeyParts(t);
    var r := ReadValue(f, ReadKey(t).rest, depth);
    var between, s := ValueParts(f, ReadKey(t).rest, depth);
    if Expects(r.rest, ',') {
      var after := ExpectParts(r.rest, ',');
      var more := MembersParts(f, SkipSpace(r.rest)[1..], depth, Insert(sofar, ReadKey(t).s, r.value));
      ms := OneMember(before, key, colon, between, s, after, more);
    } else {
      var after := ExpectParts(r.rest, '}');
      ms := OneMember(before, key, colon, between, s, after, NoMembers);
    }
  }

  // ----- Documents -----

  /** White space, a value as it may be written under fewer arrays than the limit, and anything after it that does not
  go on with a number. */
  ghost predicate IsDocument(f: Numbers, t: string, before: string, s: Syntax, v: Value, rest: string) {
    && IsBlank(before) && t == before + TextAnd(s, rest) && IsSyntax(f, s) && (s.Digits? ==> Ends(rest))
    && Fits(s, 100) && v == Meaning(f, s)
  }

  /** The parser reads a value from a text exactly when the text is such a document with that meaning. */
  lemma ParserIsGrammar(f: Numbers, t: string, v: Value, rest: string)
    ensures Read(f, t) == Parsed(v, rest) <==> exists before, s :: IsDocument(f, t, before, s, v, rest)
  {
    if Read(f, t) == Parsed(v, rest) {
      var before, s := ValueParts(f, t, 100);
      assert IsDocument(f, t, before, s, v, rest);
    }
    forall before, s | IsDocument(f, t, before, s, v, rest) ensures Read(f, t) == Parsed(v, rest) {
      ValueReads(f, before, s, rest, 100);
    }
  }
}
