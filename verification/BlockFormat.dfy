/** What a deflate stream stands for: blocks that are stored, that use the fixed codes, or that bring their own,
as functions of the bits still to come. Sections 3.2.3 to 3.2.7 of RFC 1951. */
module BlockFormat {
  import opened Bits
  import opened ByteReader
  import opened Canonical
  import opened Lz77
  import opened FixedCode
  import opened FixedTables

  /** The bits still to come, and how many have been read. */
  datatype Stream = Stream(val: nat, at: nat) {
    function Next(n: nat): nat {
      Low(val, n)
    }

    function After(n: nat): Stream {
      Stream(Drop(val, n), at + n)
    }
  }

  /** The bits of the bytes from bit p on, with zeros past the end. */
  function StreamAt(z: seq<byte>, p: nat): Stream {
    Stream(Drop(Val(z), p), p)
  }

  lemma AfterAt(z: seq<byte>, p: nat, n: nat)
    ensures StreamAt(z, p).After(n) == StreamAt(z, p + n)
  {
    DropDrop(Val(z), p, n);
  }

  /** The reader's tables go on with zeros where the writer's end. */
  const READ_LENGTH_BASE := LENGTH_BASE + [0, 0]
  const READ_LENGTH_EXTRA := LENGTH_EXTRA + [0, 0]
  const READ_DISTANCE_BASE := DISTANCE_BASE + [0, 0]
  const READ_DISTANCE_EXTRA := DISTANCE_EXTRA + [0, 0]

  /** NoDistance stands for the two distance symbols without a meaning, and NeverEnds for a block whose end
  never comes. */
  datatype Error =
    | BadHeader | BadType | BadStored | PastEnd | BadCodes | BadLengths
    | BadCode | BadDistance | NoDistance | NeverEnds

  datatype Inflated = Bad(error: Error) | Done(out: seq<byte>, rest: Stream)

  // ----- Items -----

  /** The code lengths of literals and lengths, and of distances. */
  datatype Codes = Codes(lengths: seq<nat>, distances: seq<nat>) {
    predicate Valid() {
      IsLengths(lengths) && IsLengths(distances) && |distances| <= 32
    }
  }

  /** The next item of a block: a byte, a back reference, the end, or an error. */
  datatype Item =
    | Byte(b: byte, rest: Stream)
    | Back(length: nat, distance: nat, rest: Stream)
    | End(rest: Stream)
    | Wrong

  ghost function NextItem(c: Codes, r: Stream): Item
    requires c.Valid()
  {
    var z := Decoded(c.lengths, r.val);
    ItemFor(c, z, if z < 0 then r else r.After(c.lengths[z]))
  }

  /** The item a symbol stands for, given what follows the symbol. */
  ghost function ItemFor(c: Codes, z: int, rest: Stream): Item
    requires c.Valid() && z < 288
  {
    if z < 0 then Wrong
    else if z < END_OF_BLOCK then Byte(z, rest)
    else if z == END_OF_BLOCK then End(rest)
    else Reference(c, z - 257, rest)
  }

  ghost function Reference(c: Codes, z: nat, r: Stream): Item
    requires c.Valid() && z < 31
  {
    Distance(c, READ_LENGTH_BASE[z] + r.Next(READ_LENGTH_EXTRA[z]), r.After(READ_LENGTH_EXTRA[z]))
  }

  ghost function Distance(c: Codes, length: nat, r: Stream): Item
    requires c.Valid()
  {
    var d := Decoded(c.distances, r.val);
    if d < 0 then Wrong else
      var rest := r.After(c.distances[d]);
      Back(length, READ_DISTANCE_BASE[d] + rest.Next(READ_DISTANCE_EXTRA[d]), rest.After(READ_DISTANCE_EXTRA[d]))
  }

  lemma ReadBases(d: nat)
    requires d < 32
    ensures READ_DISTANCE_BASE[d] == 0 <==> d >= 30
    ensures d >= 30 ==> READ_DISTANCE_EXTRA[d] == 0
  {
  }

  /** Only the two distance symbols without a meaning give distance zero. */
  lemma ZeroDistance(c: Codes, length: nat, r: Stream)
    requires c.Valid() && Distance(c, length, r).Back?
    ensures Distance(c, length, r).distance == 0 <==> Decoded(c.distances, r.val) >= 30
  {
    ReadBases(Decoded(c.distances, r.val));
  }

  // ----- One block -----

  /** The output after an item, or why there is none. */
  datatype Grown = Grown(out: seq<byte>) | Refused(error: Error)

  function Grow(item: Item, out: seq<byte>): Grown
    requires item.Byte? || item.Back?
  {
    match item
    case Byte(b, _) => Grown(out + [b])
    case Back(length, distance, _) =>
      if |out| < distance then Refused(BadDistance)
      else if length == 0 then Grown(out)
      else if distance == 0 then Refused(NoDistance)
      else Grown(Copy(out, distance, length))
  }

  /** An item takes at least one bit. When no bit is set any more, none will be. */
  ghost predicate IsAhead(r: Stream, rest: Stream) {
    rest.at > r.at && (if r.val > 0 then rest.val < r.val else rest.val == 0)
  }

  lemma AheadOf(r: Stream, n: nat)
    requires n > 0
    ensures IsAhead(r, r.After(n))
  {
    if r.val > 0 {
      DropStrict(r.val, n);
    } else {
      DropSmall(0, n);
    }
  }

  lemma StillAhead(r: Stream, rest: Stream, n: nat)
    requires IsAhead(r, rest)
    ensures IsAhead(r, rest.After(n))
  {
  }

  lemma ItemProgress(c: Codes, r: Stream)
    requires c.Valid()
    ensures !NextItem(c, r).Wrong? ==> IsAhead(r, NextItem(c, r).rest)
  {
    var z := Decoded(c.lengths, r.val);
    if z >= 0 {
      var rest := r.After(c.lengths[z]);
      AheadOf(r, c.lengths[z]);
      if z > END_OF_BLOCK {
        ReferenceProgress(c, z - 257, r, rest);
      }
    }
  }

  lemma ReferenceProgress(c: Codes, z: nat, start: Stream, r: Stream)
    requires c.Valid() && z < 31 && IsAhead(start, r)
    ensures Reference(c, z, r).Wrong? || (Reference(c, z, r).Back? && IsAhead(start, Reference(c, z, r).rest))
  {
    var more := r.After(READ_LENGTH_EXTRA[z]);
    StillAhead(start, r, READ_LENGTH_EXTRA[z]);
    var d := Decoded(c.distances, more.val);
    if d >= 0 {
      StillAhead(start, more, c.distances[d]);
      StillAhead(start, more.After(c.distances[d]), READ_DISTANCE_EXTRA[d]);
    }
  }

  /** The rest of a block, after the output so far. */
  ghost function Block(c: Codes, r: Stream, out: seq<byte>): (result: Inflated)
    requires c.Valid()
    ensures result.Done? ==> result.rest.at >= r.at
    decreases r.val, 1
  {
    ItemProgress(c, r);
    Apply(c, NextItem(c, r), r, out)
  }

  /** What an item does to the output, and the rest of the block. */
  ghost function Apply(c: Codes, item: Item, r: Stream, out: seq<byte>): (result: Inflated)
    requires c.Valid() && (!item.Wrong? ==> IsAhead(r, item.rest))
    ensures result.Done? ==> result.rest.at >= r.at
    decreases r.val, 0
  {
    if item.Wrong? then Bad(BadCode)
    else if item.End? then Done(out, item.rest)
    else
      var grown := Grow(item, out);
      if grown.Refused? then Bad(grown.error)
      else if r.val == 0 then Bad(NeverEnds)
      else Block(c, item.rest, grown.out)
  }

  lemma BlockAfter(c: Codes, r: Stream, out: seq<byte>, item: Item, more: seq<byte>)
    requires c.Valid() && r.val > 0 && item == NextItem(c, r) && (item.Byte? || item.Back?)
    requires Grow(item, out) == Grown(more)
    ensures Block(c, r, out) == Block(c, item.rest, more)
  {
    ItemProgress(c, r);
  }

  // ----- Stored blocks -----

  /** The first whole byte after the bits that have been read. */
  function NextByte(r: Stream): nat {
    (r.at + 7) / 8
  }

  function Word16(z: seq<byte>, q: nat): nat {
    At(z, q) as int + 256 * At(z, q + 1) as int
  }

  /** A length, its complement, and as many bytes. */
  function Stored(z: seq<byte>, r: Stream, out: seq<byte>): Inflated {
    var q := NextByte(r);
    var len, from := Word16(z, q), Skip(z, q, 4);
    if Word16(z, q + 2) != 0xffff - len then Bad(BadStored)
    else if from + len > |z| then Bad(PastEnd)
    else Done(out + z[from..from + len], StreamAt(z, 8 * (from + len)))
  }

  /** A stored block, once its two numbers have been read. */
  lemma StoredUnfold(z: seq<byte>, r: Stream, out: seq<byte>, len: nat, nlen: nat, from: nat)
    requires len == Word16(z, NextByte(r)) && nlen == Word16(z, NextByte(r) + 2) && from == Skip(z, NextByte(r), 4)
    ensures Stored(z, r, out)
         == if nlen != 0xffff - len then Bad(BadStored)
            else if from + len > |z| then Bad(PastEnd)
            else Done(out + z[from..from + len], StreamAt(z, 8 * (from + len)))
  {
  }

  // ----- Blocks that bring their codes -----

  /** The order in which the lengths of the codes for lengths come. */
  const ORDER: seq<nat> := [16, 17, 18, 0, 8, 7, 9, 6, 10, 5, 11, 4, 12, 3, 13, 2, 14, 1, 15]

  lemma OrderFits(i: nat)
    requires i < 19
    ensures ORDER[i] < 19
  {
  }

  function Fill(v: nat, n: nat): (s: seq<nat>)
    ensures |s| == n && forall i :: 0 <= i < n ==> s[i] == v
  {
    if n == 0 then [] else Fill(v, n - 1) + [v]
  }

  function ZeroSizes(): (s: seq<nat>)
    ensures |s| == 19 && forall i :: 0 <= i < 19 ==> s[i] == 0
  {
    seq(19, _ => 0)
  }

  datatype Sized = Sized(sizes: seq<nat>, rest: Stream)

  /** The sizes from place i to place n of that order, three bits each. */
  function Sizes(r: Stream, i: nat, n: nat, sizes: seq<nat>): (s: Sized)
    requires i <= n <= 19 && |sizes| == 19 && IsLengths(sizes)
    ensures |s.sizes| == 19 && IsLengths(s.sizes) && s.rest.at >= r.at
    decreases n - i
  {
    ThreeBits(r);
    if i == n then Sized(sizes, r) else Sizes(r.After(3), i + 1, n, sizes[ORDER[i] := r.Next(3)])
  }

  lemma ThreeBits(r: Stream)
    ensures r.Next(3) <= 7
  {
    assert Pow2(3) == 8;
  }

  lemma SizesUnfold(r: Stream, i: nat, n: nat, part: seq<nat>, size: nat, rest: Stream)
    requires i < n <= 19 && |part| == 19 && IsLengths(part) && size == r.Next(3) && rest == r.After(3)
    ensures IsLengths(part[ORDER[i] := size])
    ensures Sizes(r, i, n, part) == Sizes(rest, i + 1, n, part[ORDER[i] := size])
  {
    ThreeBits(r);
  }

  predicate AreLengths(lens: seq<nat>) {
    forall i :: 0 <= i < |lens| ==> lens[i] <= 15
  }

  datatype LengthList = LengthList(lens: seq<nat>, rest: Stream) | NoLengths

  /** The length that a symbol stands for, and how often. */
  function Repeats(z: nat, lens: seq<nat>, r: Stream): (run: LengthRun)
    requires z == 16 ==> lens != []
    ensures run.times > 0 && run.rest.at >= r.at
  {
    if z < 16 then LengthRun(z, 1, r)
    else if z == 16 then LengthRun(lens[|lens| - 1], r.Next(2) + 3, r.After(2))
    else if z == 17 then LengthRun(0, r.Next(3) + 3, r.After(3))
    else LengthRun(0, r.Next(7) + 11, r.After(7))
  }

  datatype LengthRun = LengthRun(len: nat, times: nat, rest: Stream)

  /** The code lengths up to the total number, after those so far. */
  ghost function ReadLengths(sizes: seq<nat>, r: Stream, lens: seq<nat>, total: nat): (l: LengthList)
    requires IsLengths(sizes) && |sizes| == 19 && |lens| <= total && AreLengths(lens)
    ensures l.LengthList? ==> l.rest.at >= r.at && |l.lens| == total && AreLengths(l.lens)
    decreases total - |lens|
  {
    if |lens| == total then LengthList(lens, r) else
      var z := Decoded(sizes, r.val);
      if z < 0 then NoLengths else
        var rest := r.After(sizes[z]);
        if z == 16 && lens == [] then NoLengths
        else
          var run := Repeats(z, lens, rest);
          if total - |lens| < run.times then NoLengths
          else ReadLengths(sizes, run.rest, lens + Fill(run.len, run.times), total)
  }

  datatype Tables = Tables(codes: Codes, rest: Stream) | NoTables(error: Error)

  /** How many codes for symbols and for distances there are, and how many sizes of codes for code lengths. */
  datatype Counts = Counts(hlit: nat, hdist: nat, hclen: nat, rest: Stream)

  function CountsOf(r: Stream): (c: Counts)
    ensures c.hlit <= 288 && c.hdist <= 32 && c.hclen <= 19 && c.rest.at >= r.at
  {
    FiveBits(r);
    FiveBits(r.After(5));
    FourBits(r.After(5).After(5));
    Counts(r.Next(5) + 257, r.After(5).Next(5) + 1, r.After(5).After(5).Next(4) + 4, r.After(5).After(5).After(4))
  }

  lemma FiveBits(r: Stream)
    ensures r.Next(5) <= 31
  {
    assert Pow2(5) == 32;
  }

  lemma FourBits(r: Stream)
    ensures r.Next(4) <= 15
  {
    assert Pow2(4) == 16;
  }

  ghost function ReadTables(r: Stream): (t: Tables)
    ensures t.Tables? ==>
              t.rest.at >= r.at && t.codes.Valid() && Accepted(t.codes.lengths) && Accepted(t.codes.distances)
  {
    var c := CountsOf(r);
    TablesFrom(Sizes(c.rest, 0, c.hclen, ZeroSizes()), c.hlit, c.hdist)
  }

  /** The codes of hlit symbols and hdist distances, given those for the code lengths. */
  ghost function TablesFrom(sized: Sized, hlit: nat, hdist: nat): (t: Tables)
    requires |sized.sizes| == 19 && IsLengths(sized.sizes) && hlit <= 288 && hdist <= 32
    ensures t.Tables? ==>
              t.rest.at >= sized.rest.at && t.codes.Valid() && Accepted(t.codes.lengths) && Accepted(t.codes.distances)
  {
    if !Accepted(sized.sizes) then NoTables(BadCodes)
    else
      var list := ReadLengths(sized.sizes, sized.rest, [], hlit + hdist);
      if list.NoLengths? then NoTables(BadLengths)
      else if !Accepted(list.lens[..hlit]) || !Accepted(list.lens[hlit..]) then NoTables(BadCodes)
      else Tables(Codes(list.lens[..hlit], list.lens[hlit..]), list.rest)
  }

  // ----- All blocks -----

  ghost function Body(z: seq<byte>, kind: nat, r: Stream, out: seq<byte>): Inflated {
    if kind == 0 then Stored(z, r, out)
    else if kind == 1 then FixedBlock(r, out)
    else if kind == 2 then OwnBlock(r, out)
    else Bad(BadType)
  }

  function FixedCodes(): Codes {
    Codes(FixedLengths(), FixedDistances())
  }

  ghost function FixedBlock(r: Stream, out: seq<byte>): Inflated {
    FixedLengthsAre();
    Block(FixedCodes(), r, out)
  }

  ghost function OwnBlock(r: Stream, out: seq<byte>): Inflated {
    var t := ReadTables(r);
    if t.NoTables? then Bad(t.error) else Block(t.codes, t.rest, out)
  }

  /** Bytes are read whole from the first whole byte on. */
  lemma DropBytes(z: seq<byte>, q: nat)
    requires q <= |z|
    ensures Drop(Val(z), 8 * q) == Val(z[q..])
  {
    var a, b := z[..q], z[q..];
    assert a + b == z;
    ValAppend(a, b);
    JoinSplit(Val(a), 8 * q, Val(b));
  }

  lemma FirstByte(z: seq<byte>, q: nat)
    requires q < |z|
    ensures Low(Drop(Val(z), 8 * q), 8) == z[q]
  {
    DropBytes(z, q);
    JoinSplit(z[q], 8, Val(z[q..][1..]));
    assert Pow2(8) == 256;
    LowSmall(z[q], 8);
  }

  /** Where no bit is set any more the bytes are zero. */
  lemma ZeroByte(z: seq<byte>, p: nat, q: nat)
    requires Drop(Val(z), p) == 0 && p <= 8 * q
    ensures At(z, q) == 0
  {
    if q < |z| {
      FirstByte(z, q);
      DropDrop(Val(z), p, 8 * q - p);
      DropSmall(0, 8 * q - p);
      LowSmall(0, 8);
    }
  }

  /** A stored block that is complete has its header in the input... */
  lemma StoredHeader(z: seq<byte>, r: Stream, out: seq<byte>)
    requires Stored(z, r, out).Done?
    ensures NextByte(r) + 4 <= |z|
  {
  }

  /** ... and it is not all zeros. */
  lemma StoredIsAhead(z: seq<byte>, r: Stream, out: seq<byte>)
    requires Stored(z, r, out).Done?
    ensures Stored(z, r, out).rest.at > r.at
    ensures exists q :: NextByte(r) <= q < |z| && z[q] != 0
  {
    StoredHeader(z, r, out);
    var q := NextByte(r);
    assert z[q] != 0 || z[q + 1] != 0 || z[q + 2] != 0;
  }

  lemma BodyIsAhead(z: seq<byte>, kind: nat, r: Stream, out: seq<byte>)
    requires Body(z, kind, r, out).Done?
    ensures Body(z, kind, r, out).rest.at >= r.at
  {
    if kind == 0 {
      StoredIsAhead(z, r, out);
    }
  }

  /** After the last set bit there is no complete stored block. */
  lemma NoStoredZeros(z: seq<byte>, p: nat, r: Stream, out: seq<byte>)
    requires Drop(Val(z), p) == 0 && p <= r.at
    ensures !Stored(z, r, out).Done?
  {
    if Stored(z, r, out).Done? {
      StoredIsAhead(z, r, out);
      var q :| NextByte(r) <= q < |z| && z[q] != 0;
      ZeroByte(z, p, q);
      assert false;
    }
  }

  /** Every block but the last leaves a smaller stream: after the last set bit the reader finds a stored block
  whose header is wrong. */
  lemma BodyProgress(z: seq<byte>, p: nat, out: seq<byte>)
    requires var r := StreamAt(z, p); Body(z, r.After(1).Next(2), r.After(1).After(2), out).Done?
    ensures var r := StreamAt(z, p);
            var block := Body(z, r.After(1).Next(2), r.After(1).After(2), out);
            r.Next(1) != 1 ==> Drop(Val(z), block.rest.at) < Drop(Val(z), p)
  {
    var r := StreamAt(z, p);
    BodyIsAhead(z, r.After(1).Next(2), r.After(1).After(2), out);
    if r.val == 0 {
      NothingSet(r);
      NoStoredZeros(z, p, r.After(1).After(2), out);
    } else {
      Smaller(Val(z), p, Body(z, r.After(1).Next(2), r.After(1).After(2), out).rest.at);
    }
  }

  lemma Smaller(v: nat, p: nat, q: nat)
    requires p < q && Drop(v, p) > 0
    ensures Drop(v, q) < Drop(v, p)
  {
    DropDrop(v, p, q - p);
    DropStrict(Drop(v, p), q - p);
  }

  lemma NothingSet(r: Stream)
    requires r.val == 0
    ensures r.After(1).Next(2) == 0
  {
    DropSmall(0, 1);
    LowSmall(0, 2);
  }

  /** The blocks from bit p on. */
  ghost function Blocks(z: seq<byte>, p: nat, out: seq<byte>): Inflated
    decreases Drop(Val(z), p)
  {
    var r := StreamAt(z, p);
    var block := Body(z, r.After(1).Next(2), r.After(1).After(2), out);
    if !block.Done? || r.Next(1) == 1 then block
    else
      BodyProgress(z, p, out);
      Blocks(z, block.rest.at, block.out)
  }

  lemma BlocksUnfold(z: seq<byte>, p: nat, out: seq<byte>, final: nat, kind: nat, block: Inflated)
    requires final == StreamAt(z, p).Next(1) && kind == StreamAt(z, p).After(1).Next(2)
    requires block == Body(z, kind, StreamAt(z, p).After(1).After(2), out)
    ensures Blocks(z, p, out) == if block.Done? && final != 1 then Blocks(z, block.rest.at, block.out) else block
    ensures block.Done? && final != 1 ==> Drop(Val(z), block.rest.at) < Drop(Val(z), p)
  {
    if block.Done? {
      BodyProgress(z, p, out);
    }
  }

  predicate GoodHeader(cmf: byte, flg: byte) {
    (cmf * 256 + flg) % 31 == 0 && flg / 32 % 2 == 0 && cmf % 16 == 8
  }

  ghost function Zlib(z: seq<byte>): Inflated {
    if !GoodHeader(At(z, 0), At(z, 1)) then Bad(BadHeader) else Blocks(z, 16, [])
  }

  // ----- The fixed codes in a stream -----

  lemma FixedSymbolReads(n: nat, rest: nat, at: nat)
    requires n < 288
    ensures FixedCodes().Valid()
    ensures NextItem(FixedCodes(), Stream(Before(SymbolCode(n), rest), at))
         == ItemFor(FixedCodes(), n, Stream(rest, at + SymbolCode(n).len))
  {
    var r := Stream(Before(SymbolCode(n), rest), at);
    FixedLengthsAre();
    FixedCodeOf(n);
    SymbolDecodes(n, rest);
    SymbolItem(FixedCodes(), r, n, Stream(rest, at + SymbolCode(n).len));
  }

  lemma SymbolItem(c: Codes, r: Stream, n: nat, rest: Stream)
    requires c.Valid() && n < 288 && Decoded(c.lengths, r.val) == n && r.After(c.lengths[n]) == rest
    ensures NextItem(c, r) == ItemFor(c, n, rest)
  {
  }

  lemma FixedDistanceReads(k: nat, rest: nat, at: nat)
    requires k < 32
    ensures Decoded(FixedCodes().distances, Before(Code(Rev(k, 5), 5), rest)) == k && FixedCodes().distances[k] == 5
    ensures Stream(Before(Code(Rev(k, 5), 5), rest), at).After(5) == Stream(rest, at + 5)
  {
    DistanceDecodes(k, rest);
  }
}
