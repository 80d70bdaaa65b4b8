/** The JSON printer: values are written through an output, one character after the other. */
module JsonWriter {
  import opened Sequences
  import opened JsonValue
  import opened JsonParser
  import JsonReader
  import JsonRoundTrip

  class Output {
    var text: string

    constructor ()
      ensures text == []
    {
      text := [];
    }

    method Put(c: char)
      modifies this
      ensures text == old(text) + [c]
    {
      text := text + [c];
    }

    method Copy(s: string)
      modifies this
      ensures text == old(text) + s
    {
      for i := 0 to |s|
        invariant text == old(text) + s[..i]
      {
        Put(s[i]);
      }
      assert s[..|s|] == s;
    }

    method SerializeString(s: string)
      modifies this
      ensures text == old(text) + Quoted(s)
    {
      Put('"');
      ghost var start := text;
      for i := 0 to |s|
        invariant text + Escaped(s[i..]) == start + Escaped(s)
      {
        PutEscaped(s, i);
      }
      Put('"');
      QuotedIs(old(text), s);
    }

    method PutEscaped(s: string, i: nat)
      requires i < |s|
      modifies this
      ensures text + Escaped(s[i + 1..]) == old(text) + Escaped(s[i..])
    {
      assert s[i..][1..] == s[i + 1..];
      Associates(text, Escape(s[i]), Escaped(s[i + 1..]));
      Copy(Escape(s[i]));
    }

    /** A line break and two spaces for each level. */
    method Indent(indent: nat)
      modifies this
      ensures text == old(text) + ("\n" + Spaces(2 * indent))
    {
      Put('\n');
      for i := 0 to 2 * indent
        invariant text == old(text) + "\n" + Spaces(i)
      {
        Put(' ');
      }
    }

    method BreakLine(indent: int)
      requires indent >= COMPACT
      modifies this
      ensures text == old(text) + Break(indent)
    {
      if indent != COMPACT {
        Indent(indent);
      }
    }

    /** A value at a level of indentation, -1 for compact text; level 0 ends with a line break. */
    method Serialize(f: Numbers, v: Value, indent: int)
      requires indent >= COMPACT
      modifies this
      ensures text == old(text) + Text(f, v, indent) + if indent == 0 then "\n" else []
      decreases v, if v.Array? then |v.items| + 2 else if v.Object? then |v.members| + 2 else 0
    {
      match v {
        case Str(s) => {
          SerializeString(s);
        }
        case Array(items) => {
          SerializeItems(f, v, indent);
        }
        case Object(members) => {
          SerializeMembers(f, v, indent);
        }
        case _ => {
          Copy(Scalar(f, v));
        }
      }
      if indent == 0 {
        Put('\n');
      }
    }

    method SerializeItems(f: Numbers, v: Value, indent: int)
      requires v.Array? && indent >= COMPACT
      modifies this
      ensures text == old(text) + Text(f, v, indent)
      decreases v, |v.items| + 1
    {
      Put('[');
      var level := if indent == COMPACT then COMPACT else indent + 1;
      SerializeAllItems(f, v, level);
      Close(indent, v.items == [], ']');
      ClosedIs(old(text), "[", ItemsText(f, v, 0, level), if v.items == [] then [] else Break(indent), "]");
    }

    method SerializeAllItems(f: Numbers, v: Value, level: int)
      requires v.Array? && level >= COMPACT && level != 0
      modifies this
      ensures text == old(text) + ItemsText(f, v, 0, level)
      decreases v, |v.items|
    {
      ghost var start := text;
      var i := 0;
      while i < |v.items|
        invariant 0 <= i <= |v.items|
        invariant text + ItemsText(f, v, i, level) == start + ItemsText(f, v, 0, level)
      {
        SerializeItem(f, v, i, level);
        i := i + 1;
      }
      assert text + [] == text;
    }

    method SerializeItem(f: Numbers, v: Value, i: nat, level: int)
      requires v.Array? && i < |v.items| && level >= COMPACT && level != 0
      modifies this
      ensures text + ItemsText(f, v, i + 1, level) == old(text) + ItemsText(f, v, i, level)
      decreases v, 0
    {
      ghost var before := text;
      PutComma(i);
      BreakLine(level);
      Serialize(f, v.items[i], level);
      ItemsNext(before, text, f, v, i, level);
    }

    method PutComma(i: nat)
      modifies this
      ensures text == old(text) + if i == 0 then [] else ","
    {
      if i != 0 {
        Put(',');
      }
    }

    /** The end of an array or object, on a line of its own unless it is empty. */
    method Close(indent: int, empty: bool, c: char)
      requires indent >= COMPACT
      modifies this
      ensures text == old(text) + (if empty then [] else Break(indent)) + [c]
    {
      if indent != COMPACT && !empty {
        BreakLine(indent);
      }
      Put(c);
    }

    method SerializeMembers(f: Numbers, v: Value, indent: int)
      requires v.Object? && indent >= COMPACT
      modifies this
      ensures text == old(text) + Text(f, v, indent)
      decreases v, |v.members| + 1
    {
      Put('{');
      var level := if indent == COMPACT then COMPACT else indent + 1;
      SerializeAllMembers(f, v, level);
      Close(indent, v.members == [], '}');
      ClosedIs(old(text), "{", MembersText(f, v, 0, level), if v.members == [] then [] else Break(indent), "}");
    }

    method SerializeAllMembers(f: Numbers, v: Value, level: int)
      requires v.Object? && level >= COMPACT && level != 0
      modifies this
      ensures text == old(text) + MembersText(f, v, 0, level)
      decreases v, |v.members|
    {
      ghost var start := text;
      var i := 0;
      while i < |v.members|
        invariant 0 <= i <= |v.members|
        invariant text + MembersText(f, v, i, level) == start + MembersText(f, v, 0, level)
      {
        SerializeMember(f, v, i, level);
        i := i + 1;
      }
      assert text + [] == text;
    }

    method SerializeMember(f: Numbers, v: Value, i: nat, level: int)
      requires v.Object? && i < |v.members| && level >= COMPACT && level != 0
      modifies this
      ensures text + MembersText(f, v, i + 1, level) == old(text) + MembersText(f, v, i, level)
      decreases v, 0
    {
      ghost var before := text;
      PutComma(i);
      BreakLine(level);
      SerializeKey(v.members[i].key, level);
      Serialize(f, v.members[i].value, level);
      MembersNext(before, text, f, v, i, level);
    }

    method SerializeKey(key: string, level: int)
      modifies this
      ensures text == old(text) + KeyText(key, level)
    {
      SerializeString(key);
      Put(':');
      if level != COMPACT {
        Put(' ');
      }
    }
  }

  lemma QuotedIs(before: string, s: string)
    ensures before + Quoted(s) == before + ['"'] + Escaped(s) + ['"']
  {
  }

  lemma ClosedIs(before: string, open: string, body: string, line: string, close: string)
    ensures before + (open + body + line + close) == before + open + body + line + close
  {
  }

  lemma ItemsNext(before: string, after: string, f: Numbers, v: Value, i: nat, indent: int)
    requires v.Array? && i < |v.items| && indent >= COMPACT
    requires after == before + (if i == 0 then [] else ",") + Break(indent) + Text(f, v.items[i], indent)
    ensures after + ItemsText(f, v, i + 1, indent) == before + ItemsText(f, v, i, indent)
  {
    Regroup(before, if i == 0 then [] else ",", Break(indent), Text(f, v.items[i], indent),
            ItemsText(f, v, i + 1, indent));
  }

  lemma Regroup(a: string, b: string, c: string, d: string, e: string)
    ensures a + (b + c + d + e) == a + b + c + d + e
  {
  }

  function KeyText(key: string, level: int): string {
    Quoted(key) + ":" + if level == COMPACT then [] else " "
  }

  lemma MembersNext(before: string, after: string, f: Numbers, v: Value, i: nat, indent: int)
    requires v.Object? && i < |v.members| && indent >= COMPACT
    requires after == before + (if i == 0 then [] else ",") + Break(indent) + KeyText(v.members[i].key, indent)
                        + Text(f, v.members[i].value, indent)
    ensures after + MembersText(f, v, i + 1, indent) == before + MembersText(f, v, i, indent)
  {
    RegroupMember(before, if i == 0 then [] else ",", Break(indent), Quoted(v.members[i].key), ":",
                  if indent == COMPACT then [] else " ", Text(f, v.members[i].value, indent),
                  MembersText(f, v, i + 1, indent));
  }

  lemma RegroupMember(a: string, b: string, c: string, d: string, e: string, g: string, h: string, t: string)
    ensures a + (b + c + d + e + g + h + t) == a + b + c + (d + e + g) + h + t
  {
  }

  method SerializeDocument(f: Numbers, v: Value, prettify: bool) returns (text: string)
    ensures text == Document(f, v, prettify)
  {
    var out := new Output();
    out.Serialize(f, v, if prettify then 0 else COMPACT);
    text := out.text;
  }

  /** Printing and parsing, with the program itself. */
  method PrintAndParse(f: Numbers, v: Value, prettify: bool) returns (ok: bool, back: Value)
    requires WellFormed(v) && NumbersRestore(f, v)
    ensures ok <==> Under(v, MAX_DEPTH)
    ensures ok ==> back == v
  {
    var text := SerializeDocument(f, v, prettify);
    var rest;
    ok, back, rest := JsonReader.ParseDocument(f, text);
    JsonRoundTrip.DocumentRoundTrip(f, v, prettify);
  }
}
