/** Reading printed values: for every value whose numbers are restored, compact or prettified, the parser
gives it back if and only if all its arrays and objects lie under fewer arrays than the limit. */
module JsonRoundTrip {
  import opened Sequences
  import opened JsonValue
  import opened JsonParser

  lemma Cons(c: char, t: string)
    ensures ([c] + t)[0] == c && ([c] + t)[1..] == t && Peek([c] + t) == c as int
  {
  }

  // ----- Spaces -----

  lemma {:induction false} SpacesSkip(k: nat, t: string)
    ensures SkipSpace(Spaces(k) + t) == SkipSpace(t)
  {
    if k == 0 {
      assert Spaces(0) + t == t;
    } else {
      Associates(Spaces(k - 1), " ", t);
      SpacesSkip(k - 1, " " + t);
      Cons(' ', t);
    }
  }

  /** A new line begins with two spaces for every level. */
  lemma BreakIs(indent: int)
    requires indent >= 0
    ensures |Break(indent)| == 1 + 2 * indent && Break(indent)[0] == '\n'
    ensures forall i :: 1 <= i < |Break(indent)| ==> Break(indent)[i] == ' '
    ensures Break(COMPACT) == []
  {
    SpacesAre(2 * indent);
  }

  lemma {:induction false} SpacesAre(k: nat)
    ensures |Spaces(k)| == k && forall i :: 0 <= i < k ==> Spaces(k)[i] == ' '
  {
    if k > 0 {
      SpacesAre(k - 1);
    }
  }

  /** Line breaks and indentation are skipped. */
  lemma BreakSkips(indent: int, t: string)
    requires indent >= COMPACT
    ensures SkipSpace(Break(indent) + t) == SkipSpace(t)
  {
    if indent == COMPACT {
      assert Break(indent) + t == t;
    } else {
      Associates("\n", Spaces(2 * indent), t);
      Cons('\n', Spaces(2 * indent) + t);
      SpacesSkip(2 * indent, t);
    }
  }

  // ----- Strings -----

  lemma HexReads(v: nat)
    requires v < 16
    ensures HexValue(HexDigit(v) as int) == v
  {
  }

  lemma FourDigits(v: nat)
    ensures ((v / 0x1000 * 16 + v / 0x100 % 16) * 16 + v / 16 % 16) * 16 + v % 16 == v
  {
    assert v / 16 / 16 == v / 0x100 && v / 0x100 / 16 == v / 0x1000;
  }

  lemma Hex4Reads(v: nat, t: string)
    requires v < 0x1_0000
    ensures QuadHex(Hex4(v) + t) == v && (Hex4(v) + t)[4..] == t
  {
    HexReads(v / 0x1000);
    HexReads(v / 0x100 % 16);
    HexReads(v / 16 % 16);
    HexReads(v % 16);
    FourDigits(v);
  }

  predicate IsPlain(c: char) {
    Escape(c) == [c]
  }

  /** An escaped character is one of two kinds: itself, or a backslash and what stands for it. */
  lemma EscapeReads(c: char, t: string)
    ensures IsPlain(c) ==> c >= ' ' && c != '"' && c != '\\'
    ensures !IsPlain(c) ==> |Escape(c)| > 1 && Escape(c)[0] == '\\' && ReadEscape(Escape(c)[1..] + t) == Literal([c], t)
  {
    var e := Escape(c);
    if |e| == 2 {
      Cons(e[1], t);
      assert e[1..] == [e[1]];
    } else if |e| == 6 {
      assert e[1..] == ['u'] + Hex4(c as int);
      Associates(['u'], Hex4(c as int), t);
      Cons('u', Hex4(c as int) + t);
      Hex4Reads(c as int, t);
    }
  }

  lemma {:induction false} StringReads(s: string, t: string, read: string)
    ensures ReadString(Escaped(s) + ("\"" + t), read) == Literal(read + s, t)
    decreases |s|
  {
    var tail := "\"" + t;
    Cons('"', t);
    if s == [] {
      assert Escaped(s) + tail == tail && read + s == read;
      assert tail[1..] == t;
    } else {
      Associates(Escape(s[0]), Escaped(s[1..]), tail);
      CharReads(s[0], Escaped(s[1..]) + tail, read);
      StringReads(s[1..], t, read + [s[0]]);
      FrontGoes(read, s);
    }
  }

  lemma FrontGoes(read: string, s: string)
    requires s != []
    ensures (read + [s[0]]) + s[1..] == read + s
  {
  }

  lemma CharReads(c: char, t: string, read: string)
    ensures ReadString(Escape(c) + t, read) == ReadString(t, read + [c])
  {
    var e := Escape(c);
    EscapeReads(c, t);
    if IsPlain(c) {
      PlainReads(c, t, read);
    } else {
      assert e + t == ['\\'] + (e[1..] + t);
      EscapedReads(c, e[1..] + t, t, read);
    }
  }

  lemma PlainReads(c: char, t: string, read: string)
    requires c >= ' ' && c != '"' && c != '\\'
    ensures ReadString([c] + t, read) == ReadString(t, read + [c])
  {
    Cons(c, t);
  }

  lemma EscapedReads(c: char, u: string, t: string, read: string)
    requires ReadEscape(u) == Literal([c], t)
    ensures ReadString(['\\'] + u, read) == ReadString(t, read + [c])
  {
    Cons('\\', u);
  }

  lemma QuotedReads(s: string, t: string)
    ensures Peek(Quoted(s) + t) == '"' as int && ReadString((Quoted(s) + t)[1..], []) == Literal(s, t)
  {
    assert Quoted(s) + t == "\"" + (Escaped(s) + ("\"" + t));
    Cons('"', Escaped(s) + ("\"" + t));
    StringReads(s, t, []);
    assert [] + s == s;
  }

  // ----- Numbers -----

  /** No number goes on here. */
  predicate Ends(t: string) {
    t != [] ==> !IsNumberChar(t[0])
  }

  lemma {:induction false} NumberEnds(n: string, t: string)
    requires Ends(t) && forall i :: 0 <= i < |n| ==> IsNumberChar(n[i])
    ensures NumberChars(n + t) == |n|
  {
    if n == [] {
      assert n + t == t;
    } else {
      assert (n + t)[1..] == n[1..] + t;
      NumberEnds(n[1..], t);
    }
  }

  lemma NumberReads(f: Numbers, n: real, t: string)
    requires Restores(f, n) && Ends(t)
    ensures var all := f.show(n) + t;
            all != [] && IsNumberChar(all[0]) && ('0' <= all[0] <= '9' || all[0] == '-')
            && ReadNumber(f, all) == Parsed(Number(n), t)
  {
    NumberEnds(f.show(n), t);
    assert (f.show(n) + t)[..|f.show(n)|] == f.show(n);
  }

  // ----- Order -----

  lemma {:induction false} BeforeIsStrict(a: string, b: string)
    requires Before(a, b)
    ensures a != b && !Before(b, a)
  {
    if a != [] && a[0] == b[0] {
      BeforeIsStrict(a[1..], b[1..]);
    }
  }

  lemma {:induction false} BeforeIsTransitive(a: string, b: string, c: string)
    requires Before(a, b) && Before(b, c)
    ensures Before(a, c)
  {
    if a != [] && a[0] == b[0] && b[0] == c[0] {
      BeforeIsTransitive(a[1..], b[1..], c[1..]);
    }
  }

  lemma {:induction false} BeforeIsTotal(a: string, b: string)
    ensures a == b || Before(a, b) || Before(b, a)
  {
    if a != [] && b != [] && a[0] == b[0] {
      BeforeIsTotal(a[1..], b[1..]);
      if a[1..] == b[1..] {
        assert a == [a[0]] + a[1..] && b == [b[0]] + b[1..];
      }
    }
  }

  lemma {:induction false} FirstIsBefore(members: seq<Member>, k: nat)
    requires Sorted(members) && 0 < k < |members|
    ensures Before(members[0].key, members[k].key)
  {
    if k > 1 {
      FirstIsBefore(members, k - 1);
      BeforeIsTransitive(members[0].key, members[k - 1].key, members[k].key);
    }
  }

  lemma SortedTail(members: seq<Member>)
    requires Sorted(members) && members != []
    ensures Sorted(members[1..])
  {
    forall i | 0 < i < |members[1..]| ensures Before(members[1..][i - 1].key, members[1..][i].key) {
      assert Before(members[i].key, members[i + 1].key);
    }
  }

  /** A member with a greater key goes to the end. */
  lemma {:induction false} InsertLast(members: seq<Member>, m: Member)
    requires Sorted(members + [m])
    ensures Insert(members, m.key, m.value) == members + [m]
  {
    if members != [] {
      LastIsAfter(members, m);
      SortedTail(members + [m]);
      assert (members + [m])[1..] == members[1..] + [m];
      InsertLast(members[1..], m);
      assert [members[0]] + (members[1..] + [m]) == members + [m];
    }
  }

  lemma LastIsAfter(members: seq<Member>, m: Member)
    requires Sorted(members + [m]) && members != []
    ensures members[0].key != m.key && !Before(m.key, members[0].key)
  {
    FirstIsBefore(members + [m], |members|);
    BeforeIsStrict(members[0].key, m.key);
  }

  // ----- Scalars -----

  lemma {:induction false} WordBegins(word: string, t: string)
    ensures BeginsWith(word + t, word) && (word + t)[|word|..] == t
  {
    if word != [] {
      assert (word + t)[1..] == word[1..] + t;
      WordBegins(word[1..], t);
    }
  }

  lemma WordReads(f: Numbers, c: char, word: string, v: Value, t: string)
    ensures var all := ([c] + word) + t;
            all != [] && all[0] == c && ReadWord(all, word, v) == Parsed(v, t)
  {
    Associates([c], word, t);
    Cons(c, word + t);
    WordBegins(word, t);
    assert ([c] + word + t)[1 + |word|..] == (word + t)[|word|..];
  }

  /** A value's text starts with a character that is neither a space nor a closing bracket. */
  predicate Starts(t: string) {
    t != [] && !IsSpace(t[0] as int) && t[0] != ']' && t[0] != '}'
  }

  lemma TextStarts(f: Numbers, v: Value, indent: int)
    requires indent >= COMPACT && NumbersRestore(f, v)
    ensures Starts(Text(f, v, indent))
  {
    match v {
      case Array(_) => {
        assert Text(f, v, indent)[0] == '[';
      }
      case Object(_) => {
        assert Text(f, v, indent)[0] == '{';
      }
      case Str(s) => {
        assert Text(f, v, indent)[0] == '"';
      }
      case Number(n) => {
      }
      case Bool(_) => {
      }
      case Null => {
      }
    }
  }

  lemma ScalarReads(f: Numbers, v: Value, t: string, depth: nat)
    requires !v.Array? && !v.Object? && NumbersRestore(f, v) && Ends(t)
    ensures ReadToken(f, Scalar(f, v) + t, depth) == Parsed(v, t)
  {
    match v {
      case Null => {
        NullReads(f, t, depth);
      }
      case Bool(b) => {
        BoolReads(f, b, t, depth);
      }
      case Number(n) => {
        NumberReads(f, n, t);
      }
      case Str(s) => {
        QuotedReads(s, t);
      }
    }
  }

  lemma NullReads(f: Numbers, t: string, depth: nat)
    ensures ReadToken(f, "null" + t, depth) == Parsed(Null, t)
  {
    assert "null" == ['n'] + "ull";
    WordReads(f, 'n', "ull", Null, t);
  }

  lemma BoolReads(f: Numbers, b: bool, t: string, depth: nat)
    ensures ReadToken(f, (if b then "true" else "false") + t, depth) == Parsed(Bool(b), t)
  {
    assert "true" == ['t'] + "rue" && "false" == ['f'] + "alse";
    if b {
      WordReads(f, 't', "rue", Bool(b), t);
    } else {
      WordReads(f, 'f', "alse", Bool(b), t);
    }
  }

  // ----- Steps of the parser -----

  lemma ValueAfterSpace(f: Numbers, t: string, u: string, depth: nat)
    requires SkipSpace(t) == SkipSpace(u)
    ensures ReadValue(f, t, depth) == ReadValue(f, u, depth)
  {
  }

  lemma ItemsAfterSpace(f: Numbers, t: string, depth: nat, items: seq<Value>)
    ensures ReadItems(f, SkipSpace(t), depth, items) == ReadItems(f, t, depth, items)
  {
    ValueAfterSpace(f, t, SkipSpace(t), depth);
  }

  lemma KeyAfterSpace(t: string, u: string)
    requires SkipSpace(t) == SkipSpace(u)
    ensures ReadKey(t) == ReadKey(u)
  {
  }

  lemma MembersAfterSpace(f: Numbers, t: string, depth: nat, members: seq<Member>)
    ensures ReadMembers(f, SkipSpace(t), depth, members) == ReadMembers(f, t, depth, members)
  {
    KeyAfterSpace(t, SkipSpace(t));
    assert ReadMember(f, SkipSpace(t), depth) == ReadMember(f, t, depth);
  }

  lemma ItemsStep(f: Numbers, t: string, depth: nat, items: seq<Value>, i: nat, u: string)
    requires i < |items| && ReadValue(f, t, depth) == Parsed(items[i], u)
    ensures Peek(SkipSpace(u)) == ',' as int ==>
              ReadItems(f, t, depth, items[..i]) == ReadItems(f, SkipSpace(u)[1..], depth, items[..i + 1])
    ensures Peek(SkipSpace(u)) == ']' as int && i + 1 == |items| ==>
              ReadItems(f, t, depth, items[..i]) == Parsed(Array(items), SkipSpace(u)[1..])
  {
    assert items[..i] + [items[i]] == items[..i + 1];
    if i + 1 == |items| {
      assert items[..i + 1] == items;
    }
  }

  lemma InsertNext(members: seq<Member>, i: nat)
    requires Sorted(members) && i < |members|
    ensures Insert(members[..i], members[i].key, members[i].value) == members[..i + 1]
  {
    assert members[..i] + [members[i]] == members[..i + 1];
    InsertLast(members[..i], members[i]);
  }

  lemma MembersStep(f: Numbers, t: string, depth: nat, members: seq<Member>, i: nat, u: string)
    requires i < |members| && Sorted(members) && ReadMember(f, t, depth) == Pair(members[i], u)
    ensures Peek(SkipSpace(u)) == ',' as int ==>
              ReadMembers(f, t, depth, members[..i]) == ReadMembers(f, SkipSpace(u)[1..], depth, members[..i + 1])
    ensures Peek(SkipSpace(u)) == '}' as int && i + 1 == |members| ==>
              ReadMembers(f, t, depth, members[..i]) == Parsed(Object(members), SkipSpace(u)[1..])
  {
    InsertNext(members, i);
    if i + 1 == |members| {
      assert members[..i + 1] == members;
    }
  }

  // ----- Arrays -----

  /** All items from i on are within the limit. */
  predicate ItemsUnder(items: seq<Value>, i: nat, depth: nat)
    decreases |items| - i
  {
    i >= |items| || (Under(items[i], depth) && ItemsUnder(items, i + 1, depth))
  }

  lemma {:induction false} ItemsUnderIs(items: seq<Value>, i: nat, depth: nat)
    ensures ItemsUnder(items, i, depth) <==> forall k :: i <= k < |items| ==> Under(items[k], depth)
    decreases |items| - i
  {
    if i < |items| {
      ItemsUnderIs(items, i + 1, depth);
    }
  }

  /** What follows item i of an array whose own text is followed by t. */
  function ItemTail(f: Numbers, v: Value, i: nat, indent: int, outer: int, t: string): string
    requires v.Array? && i < |v.items| && indent >= COMPACT && outer >= COMPACT
    decreases |v.items| - i
  {
    if i + 1 < |v.items|
    then "," + (Break(indent) + (Text(f, v.items[i + 1], indent) + ItemTail(f, v, i + 1, indent, outer, t)))
    else Break(outer) + ("]" + t)
  }

  lemma {:induction false} ItemTailIs(f: Numbers, v: Value, i: nat, indent: int, outer: int, t: string)
    requires v.Array? && i < |v.items| && indent >= COMPACT && outer >= COMPACT
    ensures ItemsText(f, v, i + 1, indent) + (Break(outer) + ("]" + t)) == ItemTail(f, v, i, indent, outer, t)
    decreases |v.items| - i
  {
    var end := Break(outer) + ("]" + t);
    if i + 1 < |v.items| {
      ItemTailIs(f, v, i + 1, indent, outer, t);
      Regroup(",", Break(indent), Text(f, v.items[i + 1], indent), ItemsText(f, v, i + 2, indent), end);
    } else {
      assert ItemsText(f, v, i + 1, indent) == [];
      assert [] + end == end;
    }
  }

  lemma Regroup(a: string, b: string, c: string, d: string, e: string)
    ensures (a + b + c + d) + e == a + (b + (c + (d + e)))
  {
  }

  lemma ArrayTextIs(f: Numbers, v: Value, indent: int, t: string)
    requires v.Array? && v.items != [] && indent >= COMPACT
    ensures var inner := Inner(indent);
            Text(f, v, indent) + t
            == "[" + (Break(inner) + (Text(f, v.items[0], inner) + ItemTail(f, v, 0, inner, indent, t)))
  {
    var inner := Inner(indent);
    var a, b, c := Break(inner), Text(f, v.items[0], inner), ItemsText(f, v, 1, inner);
    ItemTailIs(f, v, 0, inner, indent, t);
    assert ItemsText(f, v, 0, inner) == [] + a + b + c;
    ArrayRegroup("[", a, b, c, Break(indent), "]", t);
  }

  lemma ArrayRegroup(open: string, a: string, b: string, c: string, d: string, close: string, t: string)
    ensures (open + ([] + a + b + c) + d + close) + t == open + (a + (b + (c + (d + (close + t)))))
  {
  }

  lemma ItemTailReads(f: Numbers, v: Value, i: nat, indent: int, outer: int, t: string)
    requires v.Array? && i < |v.items| && indent >= COMPACT && outer >= COMPACT
    ensures var u := ItemTail(f, v, i, indent, outer, t);
            && Ends(u)
            && (i + 1 < |v.items| ==>
                  Peek(SkipSpace(u)) == ',' as int
                  && SkipSpace(u)[1..] == Break(indent)
                    + (Text(f, v.items[i + 1], indent) + ItemTail(f, v, i + 1, indent, outer, t)))
            && (i + 1 == |v.items| ==> Peek(SkipSpace(u)) == ']' as int && SkipSpace(u)[1..] == t)
  {
    if i + 1 < |v.items| {
      Cons(',', Break(indent) + (Text(f, v.items[i + 1], indent) + ItemTail(f, v, i + 1, indent, outer, t)));
    } else {
      ClosingReads(outer, ']', t);
    }
  }

  lemma ClosingReads(indent: int, c: char, t: string)
    requires indent >= COMPACT && (c == ']' || c == '}')
    ensures var u := Break(indent) + ([c] + t);
            Ends(u) && Peek(SkipSpace(u)) == c as int && SkipSpace(u)[1..] == t
  {
    BreakSkips(indent, [c] + t);
    Cons(c, t);
    if indent == COMPACT {
      assert Break(indent) + ([c] + t) == [c] + t;
    } else {
      assert (Break(indent) + ([c] + t))[0] == '\n';
    }
  }

  lemma ItemsRead(f: Numbers, v: Value, i: nat, indent: int, outer: int, t: string, depth: nat)
    requires v.Array? && i < |v.items| && indent >= COMPACT && outer >= COMPACT && WellFormed(v) && NumbersRestore(f, v)
    ensures ReadItems(f, Break(indent) + (Text(f, v.items[i], indent) + ItemTail(f, v, i, indent, outer, t)), depth,
                      v.items[..i])
         == if ItemsUnder(v.items, i, depth) then Parsed(v, t) else Malformed
    decreases v, |v.items| - i
  {
    var u := ItemTail(f, v, i, indent, outer, t);
    var text := Text(f, v.items[i], indent) + u;
    ItemTailReads(f, v, i, indent, outer, t);
    ValueReads(f, v.items[i], indent, u, depth);
    BreakSkips(indent, text);
    ValueAfterSpace(f, Break(indent) + text, text, depth);
    if Under(v.items[i], depth) {
      ItemsStep(f, Break(indent) + text, depth, v.items, i, u);
      if i + 1 < |v.items| {
        ItemsRead(f, v, i + 1, indent, outer, t, depth);
      }
    }
  }

  lemma ArrayReads(f: Numbers, v: Value, indent: int, t: string, depth: nat)
    requires v.Array? && indent >= COMPACT && WellFormed(v) && NumbersRestore(f, v)
    ensures ReadToken(f, Text(f, v, indent) + t, depth)
         == if depth > 0 && ItemsUnder(v.items, 0, depth - 1) then Parsed(v, t) else Malformed
    decreases v, |v.items| + 1
  {
    if v.items == [] {
      EmptyArray(f, t, indent, depth);
    } else {
      var inner := Inner(indent);
      var rest := Text(f, v.items[0], inner) + ItemTail(f, v, 0, inner, indent, t);
      ArrayTextIs(f, v, indent, t);
      ItemStarts(f, v, 0, inner, ItemTail(f, v, 0, inner, indent, t));
      ArrayBegins(f, Break(inner) + rest, depth);
      if depth > 0 {
        ItemsRead(f, v, 0, inner, indent, t, depth - 1);
      }
      assert v.items[..0] == [];
    }
  }

  lemma EmptyArray(f: Numbers, t: string, indent: int, depth: nat)
    requires indent >= COMPACT
    ensures ReadToken(f, Text(f, Array([]), indent) + t, depth) == if depth > 0 then Parsed(Array([]), t) else Malformed
  {
    assert Text(f, Array([]), indent) == "[" + "]";
    Associates("[", "]", t);
    Cons('[', "]" + t);
    Cons(']', t);
  }

  /** The first item is not mistaken for the end of the array. */
  lemma ItemStarts(f: Numbers, v: Value, i: nat, indent: int, u: string)
    requires v.Array? && i < |v.items| && indent >= COMPACT && NumbersRestore(f, v)
    ensures !Expects(Break(indent) + (Text(f, v.items[i], indent) + u), ']')
  {
    BreakSkips(indent, Text(f, v.items[i], indent) + u);
    TextStarts(f, v.items[i], indent);
  }

  lemma ArrayBegins(f: Numbers, t: string, depth: nat)
    requires !Expects(t, ']')
    ensures ReadToken(f, "[" + t, depth) == if depth == 0 then Malformed else ReadItems(f, t, depth - 1, [])
  {
    Cons('[', t);
    if depth > 0 {
      ItemsAfterSpace(f, t, depth - 1, []);
    }
  }

  /** Printed values are read back, unless too many arrays enclose them. */
  lemma ValueReads(f: Numbers, v: Value, indent: int, t: string, depth: nat)
    requires indent >= COMPACT && WellFormed(v) && NumbersRestore(f, v) && Ends(t)
    ensures ReadValue(f, Text(f, v, indent) + t, depth) == if Under(v, depth) then Parsed(v, t) else Malformed
    decreases v, if v.Array? then |v.items| + 2 else if v.Object? then |v.members| + 2 else 0
  {
    TextStarts(f, v, indent);
    match v {
      case Array(items) => {
        ArrayReads(f, v, indent, t, depth);
        if depth > 0 {
          ItemsUnderIs(items, 0, depth - 1);
        }
      }
      case Object(members) => {
        ObjectReads(f, v, indent, t, depth);
        MembersUnderIs(members, 0, depth);
      }
      case _ => {
        ScalarReads(f, v, t, depth);
      }
    }
  }

  // ----- Objects -----

  predicate MembersUnder(members: seq<Member>, i: nat, depth: nat)
    decreases |members| - i
  {
    i >= |members| || (Under(members[i].value, depth) && MembersUnder(members, i + 1, depth))
  }

  lemma {:induction false} MembersUnderIs(members: seq<Member>, i: nat, depth: nat)
    ensures MembersUnder(members, i, depth) <==> forall k :: i <= k < |members| ==> Under(members[k].value, depth)
    decreases |members| - i
  {
    if i < |members| {
      MembersUnderIs(members, i + 1, depth);
    }
  }

  function Separator(indent: int): string
    requires indent >= COMPACT
  {
    if indent == COMPACT then [] else " "
  }

  /** Member i and what follows it. */
  function MemberAnd(f: Numbers, m: Member, indent: int, t: string): string
    requires indent >= COMPACT
  {
    Quoted(m.key) + (":" + (Separator(indent) + (Text(f, m.value, indent) + t)))
  }

  function MemberTail(f: Numbers, v: Value, i: nat, indent: int, outer: int, t: string): string
    requires v.Object? && i < |v.members| && indent >= COMPACT && outer >= COMPACT
    decreases |v.members| - i
  {
    if i + 1 < |v.members|
    then "," + (Break(indent) + MemberAnd(f, v.members[i + 1], indent, MemberTail(f, v, i + 1, indent, outer, t)))
    else Break(outer) + ("}" + t)
  }

  lemma {:induction false} MemberTailIs(f: Numbers, v: Value, i: nat, indent: int, outer: int, t: string)
    requires v.Object? && i < |v.members| && indent >= COMPACT && outer >= COMPACT
    ensures MembersText(f, v, i + 1, indent) + (Break(outer) + ("}" + t)) == MemberTail(f, v, i, indent, outer, t)
    decreases |v.members| - i
  {
    var end := Break(outer) + ("}" + t);
    if i + 1 < |v.members| {
      MemberTailIs(f, v, i + 1, indent, outer, t);
      var m := v.members[i + 1];
      SevenParts(",", Break(indent), Quoted(m.key), ":", Separator(indent), Text(f, m.value, indent),
                 MembersText(f, v, i + 2, indent), end);
    } else {
      assert MembersText(f, v, i + 1, indent) == [];
      assert [] + end == end;
    }
  }

  lemma SevenParts(a: string, b: string, c: string, d: string, e: string, g: string, h: string, t: string)
    ensures (a + b + c + d + e + g + h) + t == a + (b + (c + (d + (e + (g + (h + t))))))
  {
  }

  lemma ObjectTextIs(f: Numbers, v: Value, indent: int, t: string)
    requires v.Object? && v.members != [] && indent >= COMPACT
    ensures var inner := Inner(indent);
            Text(f, v, indent) + t
            == "{" + (Break(inner) + MemberAnd(f, v.members[0], inner, MemberTail(f, v, 0, inner, indent, t)))
  {
    var inner := Inner(indent);
    var m := v.members[0];
    var rest := MembersText(f, v, 1, inner);
    MemberTailIs(f, v, 0, inner, indent, t);
    ObjectRegroup("{", Break(inner), Quoted(m.key), ":", Separator(inner), Text(f, m.value, inner), rest, Break(indent),
                  "}", t);
  }

  lemma ObjectRegroup(open: string, a: string, b: string, c: string, d: string, e: string, g: string, h: string,
                      close: string, t: string)
    ensures (open + ([] + a + b + c + d + e + g) + h + close) + t
         == open + (a + (b + (c + (d + (e + (g + (h + (close + t))))))))
  {
    var members := [] + a + b + c + d + e + g;
    assert (open + members + h + close) + t == open + (members + (h + (close + t)));
    MembersRegroup(a, b, c, d, e, g, h + (close + t));
  }

  lemma MembersRegroup(a: string, b: string, c: string, d: string, e: string, g: string, t: string)
    ensures ([] + a + b + c + d + e + g) + t == a + (b + (c + (d + (e + (g + t)))))
  {
  }

  lemma MemberTailReads(f: Numbers, v: Value, i: nat, indent: int, outer: int, t: string)
    requires v.Object? && i < |v.members| && indent >= COMPACT && outer >= COMPACT
    ensures var u := MemberTail(f, v, i, indent, outer, t);
            && Ends(u)
            && (i + 1 < |v.members| ==>
                  Peek(SkipSpace(u)) == ',' as int
                  && SkipSpace(u)[1..] == Break(indent)
                    + MemberAnd(f, v.members[i + 1], indent, MemberTail(f, v, i + 1, indent, outer, t)))
            && (i + 1 == |v.members| ==> Peek(SkipSpace(u)) == '}' as int && SkipSpace(u)[1..] == t)
  {
    if i + 1 < |v.members| {
      Cons(',', Break(indent) + MemberAnd(f, v.members[i + 1], indent, MemberTail(f, v, i + 1, indent, outer, t)));
    } else {
      ClosingReads(outer, '}', t);
    }
  }

  /** The key of a member is read, and its value comes next. */
  lemma KeyReads(f: Numbers, m: Member, indent: int, t: string)
    requires indent >= COMPACT
    ensures Expects(Break(indent) + MemberAnd(f, m, indent, t), '"')
    ensures ReadKey(Break(indent) + MemberAnd(f, m, indent, t))
         == Literal(m.key, Separator(indent) + (Text(f, m.value, indent) + t))
  {
    var value := Separator(indent) + (Text(f, m.value, indent) + t);
    BreakSkips(indent, MemberAnd(f, m, indent, t));
    QuotedReads(m.key, ":" + value);
    Cons(':', value);
  }

  lemma SeparatorSkips(indent: int, t: string)
    requires indent >= COMPACT
    ensures SkipSpace(Separator(indent) + t) == SkipSpace(t)
  {
    if indent == COMPACT {
      assert Separator(indent) + t == t;
    } else {
      Cons(' ', t);
    }
  }

  lemma MemberReads(f: Numbers, m: Member, indent: int, t: string, depth: nat)
    requires indent >= COMPACT
    requires ReadValue(f, Text(f, m.value, indent) + t, depth)
         == if Under(m.value, depth) then Parsed(m.value, t) else Malformed
    ensures ReadMember(f, Break(indent) + MemberAnd(f, m, indent, t), depth)
         == if Under(m.value, depth) then Pair(m, t) else BadPair
  {
    KeyReads(f, m, indent, t);
    SeparatorSkips(indent, Text(f, m.value, indent) + t);
    ValueAfterSpace(f, Separator(indent) + (Text(f, m.value, indent) + t), Text(f, m.value, indent) + t, depth);
  }

  lemma MembersRead(f: Numbers, v: Value, i: nat, indent: int, outer: int, t: string, depth: nat)
    requires v.Object? && i < |v.members| && indent >= COMPACT && outer >= COMPACT && WellFormed(v)
    requires NumbersRestore(f, v)
    ensures ReadMembers(f, Break(indent) + MemberAnd(f, v.members[i], indent, MemberTail(f, v, i, indent, outer, t)),
                        depth, v.members[..i])
         == if MembersUnder(v.members, i, depth) then Parsed(v, t) else Malformed
    decreases v, |v.members| - i
  {
    var m, u := v.members[i], MemberTail(f, v, i, indent, outer, t);
    MemberTailReads(f, v, i, indent, outer, t);
    ValueReads(f, m.value, indent, u, depth);
    MemberReads(f, m, indent, u, depth);
    if Under(m.value, depth) {
      MembersStep(f, Break(indent) + MemberAnd(f, m, indent, u), depth, v.members, i, u);
      if i + 1 < |v.members| {
        MembersRead(f, v, i + 1, indent, outer, t, depth);
      }
    }
  }

  lemma ObjectReads(f: Numbers, v: Value, indent: int, t: string, depth: nat)
    requires v.Object? && indent >= COMPACT && WellFormed(v) && NumbersRestore(f, v)
    ensures ReadToken(f, Text(f, v, indent) + t, depth)
         == if depth > 0 && MembersUnder(v.members, 0, depth) then Parsed(v, t) else Malformed
    decreases v, |v.members| + 1
  {
    if v.members == [] {
      EmptyObject(f, t, indent, depth);
    } else {
      var inner := Inner(indent);
      var rest := MemberAnd(f, v.members[0], inner, MemberTail(f, v, 0, inner, indent, t));
      ObjectTextIs(f, v, indent, t);
      KeyReads(f, v.members[0], inner, MemberTail(f, v, 0, inner, indent, t));
      ObjectBegins(f, Break(inner) + rest, depth);
      if depth > 0 {
        MembersRead(f, v, 0, inner, indent, t, depth);
      }
      assert v.members[..0] == [];
    }
  }

  lemma EmptyObject(f: Numbers, t: string, indent: int, depth: nat)
    requires indent >= COMPACT
    ensures ReadToken(f, Text(f, Object([]), indent) + t, depth)
         == if depth > 0 then Parsed(Object([]), t) else Malformed
  {
    assert Text(f, Object([]), indent) == "{" + "}";
    Associates("{", "}", t);
    Cons('{', "}" + t);
    Cons('}', t);
  }

  lemma ObjectBegins(f: Numbers, t: string, depth: nat)
    requires !Expects(t, '}')
    ensures ReadToken(f, "{" + t, depth) == if depth == 0 then Malformed else ReadMembers(f, t, depth, [])
  {
    Cons('{', t);
    if depth > 0 {
      MembersAfterSpace(f, t, depth, []);
    }
  }

  // ----- Documents -----

  /** The parser gives a printed document back exactly when every array and object lies under fewer
  than a hundred arrays; objects do not count towards the limit. */
  lemma DocumentRoundTrip(f: Numbers, v: Value, prettify: bool)
    requires WellFormed(v) && NumbersRestore(f, v)
    ensures Read(f, Document(f, v, prettify)) ==
              if Under(v, MAX_DEPTH) then Parsed(v, if prettify then "\n" else []) else Malformed
  {
    if prettify {
      ValueReads(f, v, 0, "\n", MAX_DEPTH);
    } else {
      assert Text(f, v, COMPACT) + [] == Text(f, v, COMPACT);
      ValueReads(f, v, COMPACT, [], MAX_DEPTH);
    }
  }

  // ----- What the parser can return -----

  lemma {:induction false} InsertIsSorted(members: seq<Member>, key: string, v: Value)
    requires Sorted(members)
    ensures Sorted(Insert(members, key, v))
    ensures Insert(members, key, v) != []
    ensures var k := Insert(members, key, v)[0].key; k == key || (members != [] && k == members[0].key)
  {
    if members != [] && members[0].key != key && !Before(key, members[0].key) {
      var rest := members[1..];
      forall i | 0 < i < |rest| ensures Before(rest[i - 1].key, rest[i].key) {
        assert Before(members[i].key, members[i + 1].key);
      }
      InsertIsSorted(rest, key, v);
      BeforeIsTotal(key, members[0].key);
      SortedCons(members[0], Insert(rest, key, v));
    } else if members != [] && members[0].key == key {
      forall i | 0 < i < |members| ensures Before(([Member(key, v)] + members[1..])[i - 1].key, members[i].key) {
        assert Before(members[i - 1].key, members[i].key);
      }
    }
  }

  lemma SortedCons(m: Member, members: seq<Member>)
    requires Sorted(members) && (members != [] ==> Before(m.key, members[0].key))
    ensures Sorted([m] + members)
  {
    var all := [m] + members;
    forall i | 0 < i < |all| ensures Before(all[i - 1].key, all[i].key) {
      if i > 1 {
        assert Before(members[i - 2].key, members[i - 1].key);
      }
    }
  }

  predicate MembersGood(members: seq<Member>, depth: nat) {
    Sorted(members) && forall i :: 0 <= i < |members| ==> WellFormed(members[i].value) && Under(members[i].value, depth)
  }

  lemma {:induction false} InsertIsGood(members: seq<Member>, key: string, v: Value, depth: nat)
    requires MembersGood(members, depth) && WellFormed(v) && Under(v, depth)
    ensures MembersGood(Insert(members, key, v), depth)
  {
    InsertIsSorted(members, key, v);
    InsertHas(members, key, v);
    var all := Insert(members, key, v);
    forall i | 0 <= i < |all| ensures WellFormed(all[i].value) && Under(all[i].value, depth) {
      assert all[i] in all;
      assert all[i] in members || all[i] == Member(key, v);
    }
  }

  /** Storing a member takes the place of one with the same key and keeps all others. */
  lemma {:induction false} InsertReplaces(members: seq<Member>, key: string, v: Value, m: Member)
    requires Sorted(members)
    ensures m in Insert(members, key, v) <==> m == Member(key, v) || (m in members && m.key != key)
  {
    if members != [] {
      var first, rest := members[0], members[1..];
      assert members == [first] + rest;
      SortedTail(members);
      if first.key == key || Before(key, first.key) {
        OthersAreAfter(members, key, m);
      } else {
        InsertReplaces(rest, key, v, m);
      }
    }
  }

  lemma OthersAreAfter(members: seq<Member>, key: string, m: Member)
    requires Sorted(members) && members != [] && (members[0].key == key || Before(key, members[0].key))
    ensures m in members[1..] ==> m.key != key
    ensures Before(key, members[0].key) ==> members[0].key != key
  {
    if Before(key, members[0].key) {
      BeforeIsStrict(key, members[0].key);
    }
    if m in members[1..] {
      var i :| 0 <= i < |members[1..]| && members[1..][i] == m;
      FirstIsBefore(members, i + 1);
      if Before(key, members[0].key) {
        BeforeIsTransitive(key, members[0].key, m.key);
      }
      BeforeIsStrict(key, m.key);
    }
  }

  lemma {:induction false} InsertHas(members: seq<Member>, key: string, v: Value)
    ensures forall m :: m in Insert(members, key, v) ==> m in members || m == Member(key, v)
  {
    if members != [] {
      InsertHas(members[1..], key, v);
    }
  }

  /** Whatever the text, a value that is read has sorted members and respects the limit. */
  lemma ValueIsGood(f: Numbers, t: string, depth: nat)
    ensures var r := ReadValue(f, t, depth); r.Parsed? ==> WellFormed(r.value) && Under(r.value, depth)
    decreases |t|, 1
  {
    TokenIsGood(f, SkipSpace(t), depth);
  }

  lemma TokenIsGood(f: Numbers, t: string, depth: nat)
    ensures var r := ReadToken(f, t, depth); r.Parsed? ==> WellFormed(r.value) && Under(r.value, depth)
    decreases |t|, 0
  {
    if t != [] && depth > 0 {
      if t[0] == '[' {
        ItemsAreGood(f, SkipSpace(t[1..]), depth - 1, []);
      } else if t[0] == '{' {
        MembersAreGood(f, SkipSpace(t[1..]), depth, []);
      }
    }
  }

  lemma ItemsAreGood(f: Numbers, t: string, depth: nat, items: seq<Value>)
    requires forall i :: 0 <= i < |items| ==> WellFormed(items[i]) && Under(items[i], depth)
    ensures var r := ReadItems(f, t, depth, items); r.Parsed? ==> WellFormed(r.value) && Under(r.value, depth + 1)
    decreases |t|, 2
  {
    ValueIsGood(f, t, depth);
    var item := ReadValue(f, t, depth);
    if item.Parsed? {
      var next := SkipSpace(item.rest);
      if Peek(next) == ',' as int {
        ItemsAreGood(f, next[1..], depth, items + [item.value]);
      }
    }
  }

  lemma MembersAreGood(f: Numbers, t: string, depth: nat, members: seq<Member>)
    requires MembersGood(members, depth) && depth > 0
    ensures var r := ReadMembers(f, t, depth, members); r.Parsed? ==> WellFormed(r.value) && Under(r.value, depth)
    decreases |t|, 3
  {
    var pair := ReadMember(f, t, depth);
    if pair.Pair? {
      ValueIsGood(f, ReadKey(t).rest, depth);
      InsertIsGood(members, pair.member.key, pair.member.value, depth);
      var next := SkipSpace(pair.rest);
      if Peek(next) == ',' as int {
        MembersAreGood(f, next[1..], depth, Insert(members, pair.member.key, pair.member.value));
      }
    }
  }
}
