/** JSON values and their text, as the printer writes it: compactly, or prettified with line breaks and
two spaces to a level. Characters stand for bytes. */
module JsonValue {
  /** An object's members are sorted by key, as in an ordered map. */
  datatype Value =
    | Null
    | Bool(b: bool)
    | Number(n: real)
    | Str(s: string)
    | Array(items: seq<Value>)
    | Object(members: seq<Member>)

  datatype Member = Member(key: string, value: Value)

  datatype Option<T> = None | Some(value: T)

  /** How numbers are printed and read; both are left open. */
  datatype Numbers = Numbers(show: real -> string, read: string -> Option<real>)

  // ----- Well-formed values -----

  /** Dictionary order. */
  predicate Before(a: string, b: string) {
    b != [] && (a == [] || a[0] < b[0] || (a[0] == b[0] && Before(a[1..], b[1..])))
  }

  predicate Sorted(members: seq<Member>) {
    forall i :: 0 < i < |members| ==> Before(members[i - 1].key, members[i].key)
  }

  predicate WellFormed(v: Value) {
    match v
    case Array(items) => forall i :: 0 <= i < |items| ==> WellFormed(items[i])
    case Object(members) => Sorted(members) && forall i :: 0 <= i < |members| ==> WellFormed(members[i].value)
    case _ => true
  }

  predicate IsNumberChar(c: char) {
    '0' <= c <= '9' || c == '+' || c == '-' || c == 'e' || c == 'E' || c == '.'
  }

  /** The text of a number: it starts like one, and has no other characters. */
  predicate IsNumberText(t: string) {
    t != [] && ('0' <= t[0] <= '9' || t[0] == '-') && forall i :: 0 <= i < |t| ==> IsNumberChar(t[i])
  }

  /** Reading the printed number gives the number. */
  ghost predicate Restores(f: Numbers, n: real) {
    IsNumberText(f.show(n)) && f.read(f.show(n)) == Some(n)
  }

  ghost predicate NumbersRestore(f: Numbers, v: Value) {
    match v
    case Number(n) => Restores(f, n)
    case Array(items) => forall i :: 0 <= i < |items| ==> NumbersRestore(f, items[i])
    case Object(members) => forall i :: 0 <= i < |members| ==> NumbersRestore(f, members[i].value)
    case _ => true
  }

  /** Every array and object in v lies under fewer than depth arrays. */
  predicate Under(v: Value, depth: nat) {
    match v
    case Array(items) => depth > 0 && forall i :: 0 <= i < |items| ==> Under(items[i], depth - 1)
    case Object(members) => depth > 0 && forall i :: 0 <= i < |members| ==> Under(members[i].value, depth)
    case _ => true
  }

  // ----- Strings -----

  function HexDigit(v: nat): char
    requires v < 16
  {
    if v < 10 then '0' + v as char else 'a' + (v - 10) as char
  }

  function Hex4(v: nat): string
    requires v < 0x1_0000
  {
    [HexDigit(v / 0x1000), HexDigit(v / 0x100 % 16), HexDigit(v / 16 % 16), HexDigit(v % 16)]
  }

  const BACKSPACE: char := 8 as char
  const FORM_FEED: char := 12 as char

  /** One character of a string literal. */
  function Escape(c: char): string {
    if c == '"' then "\\\""
    else if c == '\\' then "\\\\"
    else if c == '/' then "\\/"
    else if c == BACKSPACE then "\\b"
    else if c == FORM_FEED then "\\f"
    else if c == '\n' then "\\n"
    else if c == '\r' then "\\r"
    else if c == '\t' then "\\t"
    else if c < ' ' || c as int == 0x7f then "\\u" + Hex4(c as int)
    else [c]
  }

  function Escaped(s: string): string {
    if s == [] then [] else Escape(s[0]) + Escaped(s[1..])
  }

  function Quoted(s: string): string {
    "\"" + Escaped(s) + "\""
  }

  // ----- Values -----

  const COMPACT := -1

  function Spaces(k: nat): string {
    if k == 0 then [] else Spaces(k - 1) + " "
  }

  /** A line break and the indentation of a level; nothing in compact text. */
  function Break(indent: int): string
    requires indent >= COMPACT
  {
    if indent == COMPACT then [] else "\n" + Spaces(2 * indent)
  }

  function Inner(indent: int): (inner: int)
    requires indent >= COMPACT
    ensures inner >= COMPACT && inner != 0
  {
    if indent == COMPACT then COMPACT else indent + 1
  }

  function Scalar(f: Numbers, v: Value): string
    requires !v.Array? && !v.Object?
  {
    match v
    case Null => "null"
    case Bool(b) => if b then "true" else "false"
    case Number(n) => f.show(n)
    case Str(s) => Quoted(s)
  }

  /** A value without the line break that ends a prettified document. */
  function Text(f: Numbers, v: Value, indent: int): string
    requires indent >= COMPACT
    decreases v, if v.Array? then |v.items| + 1 else if v.Object? then |v.members| + 1 else 0
  {
    match v
    case Array(items) =>
      "[" + ItemsText(f, v, 0, Inner(indent)) + (if items == [] then [] else Break(indent)) + "]"
    case Object(members) =>
      "{" + MembersText(f, v, 0, Inner(indent)) + (if members == [] then [] else Break(indent)) + "}"
    case _ => Scalar(f, v)
  }

  /** The items from i on, each on its own line, with commas between. */
  function ItemsText(f: Numbers, v: Value, i: nat, indent: int): string
    requires v.Array? && i <= |v.items| && indent >= COMPACT
    decreases v, |v.items| - i
  {
    if i == |v.items| then [] else
      (if i == 0 then [] else ",") + Break(indent) + Text(f, v.items[i], indent) + ItemsText(f, v, i + 1, indent)
  }

  function MembersText(f: Numbers, v: Value, i: nat, indent: int): string
    requires v.Object? && i <= |v.members| && indent >= COMPACT
    decreases v, |v.members| - i
  {
    if i == |v.members| then [] else
      (if i == 0 then [] else ",") + Break(indent) + Quoted(v.members[i].key) + ":"
        + (if indent == COMPACT then [] else " ")
        + Text(f, v.members[i].value, indent) + MembersText(f, v, i + 1, indent)
  }

  function Document(f: Numbers, v: Value, prettify: bool): string {
    if prettify then Text(f, v, 0) + "\n" else Text(f, v, COMPACT)
  }
}
