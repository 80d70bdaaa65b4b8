/** Streams of blocks of all three kinds, one after the other, read back: what a conforming deflate stream holds is
what the decompressor makes of it. Section 3.2.3 of RFC 1951. */
module BlockStreams {
  import opened Bits
  import opened ByteReader
  import opened FixedCode
  import opened FixedTables
  import opened BlockFormat
  import opened CodeWords
  import opened CodedBlocks
  import opened OwnCodes

  // ----- Bytes in a stream -----

  /** Bytes as a bit string. */
  function BytesCode(s: seq<byte>): Code {
    Code(Val(s), 8 * |s|)
  }

  lemma {:induction false} ValIsInjective(a: seq<byte>, b: seq<byte>)
    requires |a| == |b| && Val(a) == Val(b)
    ensures a == b
  {
    if a != [] {
      assert Pow2(8) == 256;
      JoinSplit(a[0], 8, Val(a[1..]));
      JoinSplit(b[0], 8, Val(b[1..]));
      LowSmall(a[0], 8);
      LowSmall(b[0], 8);
      ValIsInjective(a[1..], b[1..]);
      assert a == [a[0]] + a[1..] && b == [b[0]] + b[1..];
    }
  }

  /** What follows a bit string in the stream. */
  lemma DropOn(v: nat, p: nat, c: Code, rest: nat, next: nat)
    requires Drop(v, p) == Before(c, rest) && next == p + c.len
    ensures Drop(v, next) == rest
  {
    DropDrop(v, p, c.len);
    JoinSplit(c.val, c.len, rest);
  }

  lemma SameBytes(a: seq<byte>, after: nat, b: seq<byte>, rest: nat, n: nat)
    requires |a| == |b| && n == 8 * |a| && Join(Val(a), n, after) == Join(Val(b), n, rest)
    ensures a == b && after == rest
  {
    JoinSplit(Val(a), n, after);
    JoinSplit(Val(b), n, rest);
    ValBound(a);
    ValBound(b);
    LowSmall(Val(a), n);
    LowSmall(Val(b), n);
    ValIsInjective(a, b);
  }

  /** Bytes that come next in the stream, at a whole byte, stand there in the input. */
  lemma BytesStand(z: seq<byte>, q: nat, bytes: seq<byte>, rest: nat, next: nat)
    requires next == q + |bytes| <= |z| && Drop(Val(z), 8 * q) == Before(BytesCode(bytes), rest)
    ensures z[q..next] == bytes
  {
    var here, after := z[q..next], z[next..];
    DropBytes(z, q);
    assert z[q..] == here + after;
    ValAppend(here, after);
    SameBytes(here, Val(after), bytes, rest, 8 * |bytes|);
  }

  // ----- Stored blocks -----

  /** A length, its complement and the bytes. */
  function Frame(data: seq<byte>): seq<byte>
    requires |data| <= 0xffff
  {
    [|data| % 256, |data| / 256, 255 - |data| % 256, 255 - |data| / 256] + data
  }

  /** The bits up to the next whole byte. */
  function Filling(fill: nat, at: nat): (c: Code)
    ensures at + c.len == 8 * ((at + 7) / 8)
  {
    Code(fill, 8 * ((at + 7) / 8) - at)
  }

  function RawBits(fill: nat, data: seq<byte>, at: nat): Code
    requires |data| <= 0xffff
  {
    Cat(Filling(fill, at), BytesCode(Frame(data)))
  }

  lemma StoredReads(z: seq<byte>, q: nat, data: seq<byte>, r: Stream, out: seq<byte>, next: nat)
    requires |data| <= 0xffff && q == NextByte(r) && next == q + 4 + |data| && next <= |z|
    requires z[q..next] == Frame(data)
    ensures Stored(z, r, out) == Done(out + data, StreamAt(z, 8 * next))
  {
    var f := Frame(data);
    assert z[q] == f[0] && z[q + 1] == f[1] && z[q + 2] == f[2] && z[q + 3] == f[3];
    assert z[q + 4..next] == data by {
      assert z[q + 4..next] == z[q..next][4..];
    }
  }

  // ----- Blocks -----

  /** A block that is stored, with whatever bits fill the last byte before it, one in the fixed codes, or one that
  brings its own. */
  datatype Part = Raw(fill: nat, data: seq<byte>) | Fixed(ss: seq<Symbol>) | Own(h: Head, own: seq<Symbol>)

  predicate IsPart(part: Part, out: seq<byte>) {
    match part
    case Raw(_, data) => |data| <= 0xffff
    case Fixed(ss) => HasWord(FixedCodes().lengths, END_OF_BLOCK) && AreSymbols(FixedCodes(), ss, out)
    case Own(h, ss) => h.Valid() && AreSymbols(h.codes, ss, out)
  }

  function Kind(part: Part): nat {
    match part
    case Raw(_, _) => 0
    case Fixed(_) => 1
    case Own(_, _) => 2
  }

  /** The bits of a block after its three bits, which end at the given position. */
  function BodyBits(part: Part, at: nat, out: seq<byte>): Code
    requires IsPart(part, out)
  {
    match part
    case Raw(fill, data) => RawBits(fill, data, at)
    case Fixed(ss) => BlockBits(FixedCodes(), ss, out)
    case Own(h, ss) => Cat(HeadBits(h), BlockBits(h.codes, ss, out))
  }

  function PartBits(part: Part, last: bool, at: nat, out: seq<byte>): Code
    requires IsPart(part, out)
  {
    Cat(Code(One(last), 1), Cat(Code(Kind(part), 2), BodyBits(part, at + 3, out)))
  }

  function PartEnd(part: Part, last: bool, p: nat, out: seq<byte>): nat
    requires IsPart(part, out)
  {
    p + PartBits(part, last, p, out).len
  }

  /** The output after the block. */
  function Held(part: Part, out: seq<byte>): seq<byte>
    requires IsPart(part, out)
  {
    match part
    case Raw(_, data) => out + data
    case Fixed(ss) => AllAdded(FixedCodes(), ss, out)
    case Own(h, ss) => AllAdded(h.codes, ss, out)
  }

  lemma BodyReads(z: seq<byte>, part: Part, at: nat, out: seq<byte>, rest: nat, end: nat)
    requires IsPart(part, out) && Drop(Val(z), at) == Before(BodyBits(part, at, out), rest)
    requires end == at + BodyBits(part, at, out).len <= 8 * |z|
    ensures Body(z, Kind(part), StreamAt(z, at), out) == Done(Held(part, out), StreamAt(z, end))
  {
    EndOfBody(z, part, at, out, rest, end);
    match part
    case Raw(fill, data) => RawReads(z, fill, data, at, out, rest, end);
    case Fixed(ss) => FixedReads(ss, out, rest, at, end);
    case Own(h, ss) => OwnReads(h, ss, out, rest, at, end);
  }

  lemma EndOfBody(z: seq<byte>, part: Part, at: nat, out: seq<byte>, rest: nat, end: nat)
    requires IsPart(part, out) && Drop(Val(z), at) == Before(BodyBits(part, at, out), rest)
    requires end == at + BodyBits(part, at, out).len
    ensures StreamAt(z, end) == Stream(rest, end)
  {
    DropOn(Val(z), at, BodyBits(part, at, out), rest, end);
  }

  lemma RawReads(z: seq<byte>, fill: nat, data: seq<byte>, at: nat, out: seq<byte>, rest: nat, end: nat)
    requires |data| <= 0xffff && Drop(Val(z), at) == Before(RawBits(fill, data, at), rest)
    requires end == at + RawBits(fill, data, at).len <= 8 * |z|
    ensures Stored(z, StreamAt(z, at), out) == Done(out + data, StreamAt(z, end))
  {
    var q := NextByte(StreamAt(z, at));
    var next := q + |Frame(data)|;
    RawEnds(fill, data, at, q, next);
    FilledReads(z, Filling(fill, at), data, at, q, next, out, rest);
  }

  lemma RawEnds(fill: nat, data: seq<byte>, at: nat, q: nat, next: nat)
    requires |data| <= 0xffff && q == (at + 7) / 8 && next == q + |Frame(data)|
    ensures at + Filling(fill, at).len == 8 * q && at + RawBits(fill, data, at).len == 8 * next
  {
  }

  lemma FilledReads(z: seq<byte>, fill: Code, data: seq<byte>, at: nat, q: nat, next: nat, out: seq<byte>, rest: nat)
    requires |data| <= 0xffff && at + fill.len == 8 * q && next == q + |Frame(data)| <= |z|
    requires q == NextByte(StreamAt(z, at)) && Drop(Val(z), at) == Before(Cat(fill, BytesCode(Frame(data))), rest)
    ensures Stored(z, StreamAt(z, at), out) == Done(out + data, StreamAt(z, 8 * next))
  {
    var bytes := BytesCode(Frame(data));
    BeforeCat(fill, bytes, rest);
    DropOn(Val(z), at, fill, Before(bytes, rest), 8 * q);
    BytesStand(z, q, Frame(data), rest, next);
    StoredReads(z, q, data, StreamAt(z, at), out, next);
  }

  lemma FixedReads(ss: seq<Symbol>, out: seq<byte>, rest: nat, at: nat, end: nat)
    requires IsPart(Fixed(ss), out) && end == at + BlockBits(FixedCodes(), ss, out).len
    ensures FixedBlock(Stream(Before(BlockBits(FixedCodes(), ss, out), rest), at), out)
         == Done(AllAdded(FixedCodes(), ss, out), Stream(rest, end))
  {
    FixedAccepted();
    BlockReads(FixedCodes(), ss, out, rest, at, end);
  }

  lemma OwnReads(h: Head, ss: seq<Symbol>, out: seq<byte>, rest: nat, at: nat, end: nat)
    requires IsPart(Own(h, ss), out) && end == at + Cat(HeadBits(h), BlockBits(h.codes, ss, out)).len
    ensures OwnBlock(Stream(Before(Cat(HeadBits(h), BlockBits(h.codes, ss, out)), rest), at), out)
         == Done(AllAdded(h.codes, ss, out), Stream(rest, end))
  {
    var body := BlockBits(h.codes, ss, out);
    var mid := at + HeadBits(h).len;
    BeforeCat(HeadBits(h), body, rest);
    HeadReads(h, Before(body, rest), at, mid);
    BlockReads(h.codes, ss, out, rest, mid, end);
  }

  /** One block of a stream is read as what it holds. */
  lemma PartReads(z: seq<byte>, part: Part, last: bool, p: nat, out: seq<byte>, rest: nat, end: nat)
    requires IsPart(part, out) && Drop(Val(z), p) == Before(PartBits(part, last, p, out), rest)
    requires end == p + PartBits(part, last, p, out).len <= 8 * |z|
    ensures Drop(Val(z), end) == rest
    ensures Blocks(z, p, out)
         == if last then Done(Held(part, out), StreamAt(z, end)) else Blocks(z, end, Held(part, out))
  {
    var body := BodyBits(part, p + 3, out);
    BeforeCat(Code(One(last), 1), Cat(Code(Kind(part), 2), body), rest);
    BeforeCat(Code(Kind(part), 2), body, rest);
    ThreeBitsRead(One(last), Kind(part), Before(body, rest), z, p);
    BodyReads(z, part, p + 3, out, rest, end);
    EndOfBody(z, part, p + 3, out, rest, end);
    BlocksUnfold(z, p, out, One(last), Kind(part), Done(Held(part, out), StreamAt(z, end)));
  }

  lemma ThreeBitsRead(final: nat, kind: nat, body: nat, z: seq<byte>, p: nat)
    requires final < 2 && kind < 3 && Drop(Val(z), p) == Before(Code(final, 1), Before(Code(kind, 2), body))
    ensures StreamAt(z, p).Next(1) == final && StreamAt(z, p).After(1).Next(2) == kind
    ensures StreamAt(z, p).After(1).After(2) == StreamAt(z, p + 3) && Drop(Val(z), p + 3) == body
  {
    assert Pow2(1) == 2 && Pow2(2) == 4;
    FieldReads(final, 1, Before(Code(kind, 2), body));
    FieldReads(kind, 2, body);
    AfterAt(z, p, 1);
    AfterAt(z, p + 1, 2);
  }

  // ----- All blocks -----

  predicate AreParts(parts: seq<Part>, out: seq<byte>) {
    parts == [] || (IsPart(parts[0], out) && AreParts(parts[1..], Held(parts[0], out)))
  }

  function AllHeld(parts: seq<Part>, out: seq<byte>): seq<byte>
    requires AreParts(parts, out)
    decreases |parts|
  {
    if parts == [] then out else AllHeld(parts[1..], Held(parts[0], out))
  }

  /** The blocks from bit p on, the last one marked. */
  function PartsBits(parts: seq<Part>, p: nat, out: seq<byte>): Code
    requires AreParts(parts, out)
    decreases |parts|
  {
    if parts == [] then Code(0, 0) else
      var part, last := parts[0], |parts| == 1;
      Cat(PartBits(part, last, p, out), PartsBits(parts[1..], PartEnd(part, last, p, out), Held(part, out)))
  }

  /** Whatever blocks a stream is made of, reading it gives what they hold, and ends after the last. */
  lemma {:induction false} PartsRead(z: seq<byte>, p: nat, parts: seq<Part>, out: seq<byte>, rest: nat, end: nat)
    requires parts != [] && AreParts(parts, out) && Drop(Val(z), p) == Before(PartsBits(parts, p, out), rest)
    requires end == p + PartsBits(parts, p, out).len <= 8 * |z|
    ensures Blocks(z, p, out) == Done(AllHeld(parts, out), StreamAt(z, end))
    decreases |parts|
  {
    var next, more := PartEnd(parts[0], |parts| == 1, p, out), Held(parts[0], out);
    FirstPart(z, p, parts, out, rest, end, next, more);
    if |parts| > 1 {
      PartsRead(z, next, parts[1..], more, rest, end);
    } else {
      NoMoreParts(z, parts[1..], next, more, end);
    }
  }

  lemma FirstPart(z: seq<byte>, p: nat, parts: seq<Part>, out: seq<byte>, rest: nat, end: nat,
                  next: nat, more: seq<byte>)
    requires parts != [] && AreParts(parts, out) && Drop(Val(z), p) == Before(PartsBits(parts, p, out), rest)
    requires end == p + PartsBits(parts, p, out).len <= 8 * |z|
    requires next == PartEnd(parts[0], |parts| == 1, p, out) && more == Held(parts[0], out)
    ensures AreParts(parts[1..], more) && Drop(Val(z), next) == Before(PartsBits(parts[1..], next, more), rest)
    ensures end == next + PartsBits(parts[1..], next, more).len && AllHeld(parts, out) == AllHeld(parts[1..], more)
    ensures Blocks(z, p, out) == if |parts| == 1 then Done(more, StreamAt(z, next)) else Blocks(z, next, more)
  {
    var first, tail := PartBits(parts[0], |parts| == 1, p, out), PartsBits(parts[1..], next, more);
    CatEnds(p, first, next, tail);
    BeforeCat(first, tail, rest);
    PartReads(z, parts[0], |parts| == 1, p, out, Before(tail, rest), next);
  }

  lemma CatEnds(p: nat, first: Code, next: nat, tail: Code)
    requires next == p + first.len
    ensures p + Cat(first, tail).len == next + tail.len
  {
  }

  lemma NoMoreParts(z: seq<byte>, parts: seq<Part>, p: nat, out: seq<byte>, end: nat)
    requires parts == [] && end == p + PartsBits(parts, p, out).len
    ensures Done(AllHeld(parts, out), StreamAt(z, end)) == Done(out, StreamAt(z, p))
  {
  }

  /** A whole zlib stream: a header that is accepted and blocks, whatever follows them. */
  lemma StreamReads(z: seq<byte>, parts: seq<Part>, rest: nat)
    requires parts != [] && AreParts(parts, []) && 16 + PartsBits(parts, 16, []).len <= 8 * |z|
    requires GoodHeader(At(z, 0), At(z, 1)) && Val(z[2..]) == Before(PartsBits(parts, 16, []), rest)
    ensures Zlib(z).Done? && Zlib(z).out == AllHeld(parts, [])
  {
    DropBytes(z, 2);
    PartsRead(z, 16, parts, [], rest, 16 + PartsBits(parts, 16, []).len);
  }
}
