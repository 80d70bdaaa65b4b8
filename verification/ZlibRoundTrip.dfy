/** Decompression undoes compression: the tokens of the only block are symbols in the fixed codes. */
module ZlibRoundTrip {
  import opened Bits
  import opened ByteReader
  import opened Lz77
  import opened FixedCode
  import opened FixedTables
  import opened BlockFormat
  import opened CodeWords
  import opened CodedBlocks
  import opened BlockStreams
  import opened Deflate
  import opened Inflate

  // ----- Tokens as symbols -----

  /** The writer's codes are the words of the fixed codes. */
  lemma FixedWord(n: nat)
    requires n < 288
    ensures HasWord(FixedCodes().lengths, n) && Word(FixedCodes().lengths, n) == SymbolCode(n)
  {
    FixedCodeOf(n);
  }

  lemma FixedDistanceWord(k: nat)
    requires k < 32
    ensures HasWord(FixedCodes().distances, k) && Word(FixedCodes().distances, k) == Code(Rev(k, 5), 5)
  {
    DistanceCodeOf(k);
  }

  /** A symbol that adds what a token stands for. */
  predicate StandsFor(s: Symbol, t: Token) {
    match t
    case Literal(b) => s == Plain(b)
    case Match(length, distance) =>
      s.Reference? && s.j < 29 && s.k < 30 && LENGTH_BASE[s.j] + s.x == length && DISTANCE_BASE[s.k] + s.y == distance
  }

  lemma TokenSymbol(t: Token, c: Code) returns (s: Symbol)
    requires IsTokenCode(t, c)
    ensures IsSymbol(FixedCodes(), s) && SymbolBits(FixedCodes(), s) == c && StandsFor(s, t)
  {
    match t {
      case Literal(b) =>
        FixedWord(b);
        s := Plain(b);
      case Match(length, distance) =>
        var j, k :| InSlot(LENGTH_LIMITS, j, length) && InSlot(DISTANCE_LIMITS, k, distance)
                    && c == MatchCode(j, length, k, distance);
        s := MatchSymbol(j, length, k, distance);
    }
  }

  lemma LengthField(j: nat, length: nat) returns (x: nat)
    requires InSlot(LENGTH_LIMITS, j, length)
    ensures j < 29 && length == LENGTH_BASE[j] + x && x < Pow2(LENGTH_EXTRA[j])
    ensures ExtraCode(LENGTH_LIMITS, LENGTH_EXTRA, j, length) == Code(x, LENGTH_EXTRA[j])
  {
    LengthsFit(0);
    ReachAt(LENGTH_LIMITS, LENGTH_EXTRA, 0, j);
    x := length - LENGTH_BASE[j];
  }

  lemma DistanceField(k: nat, distance: nat) returns (y: nat)
    requires InSlot(DISTANCE_LIMITS, k, distance)
    ensures k < 30 && distance == DISTANCE_BASE[k] + y && y < Pow2(DISTANCE_EXTRA[k])
    ensures ExtraCode(DISTANCE_LIMITS, DISTANCE_EXTRA, k, distance) == Code(y, DISTANCE_EXTRA[k])
  {
    DistancesFit(0);
    ReachAt(DISTANCE_LIMITS, DISTANCE_EXTRA, 0, k);
    y := distance - DISTANCE_BASE[k];
  }

  lemma MatchSymbol(j: nat, length: nat, k: nat, distance: nat) returns (s: Symbol)
    requires InSlot(LENGTH_LIMITS, j, length) && InSlot(DISTANCE_LIMITS, k, distance)
    ensures IsSymbol(FixedCodes(), s) && SymbolBits(FixedCodes(), s) == MatchCode(j, length, k, distance)
    ensures StandsFor(s, Match(length, distance))
  {
    var x := LengthField(j, length);
    var y := DistanceField(k, distance);
    FixedWord(257 + j);
    FixedDistanceWord(k);
    s := CodedBlocks.Reference(j, x, k, y);
  }

  lemma SymbolAdds(s: Symbol, t: Token, out: seq<byte>)
    requires StandsFor(s, t) && IsToken(t, |out|)
    ensures FitsAfter(s, |out|) && Added(out, s) == Expand(out, t)
  {
  }

  /** The bit strings of the tokens and the end mark are a block of symbols in the fixed codes. */
  lemma {:induction false} TokensAreSymbols(ts: seq<Token>, cs: seq<Code>, out: seq<byte>) returns (ss: seq<Symbol>)
    requires AreTokens(ts, out) && AreTokenCodes(ts, cs)
    ensures IsPart(Fixed(ss), out) && AllAdded(FixedCodes(), ss, out) == ExpandAll(out, ts)
    ensures BlockBits(FixedCodes(), ss, out) == Cat(Concat(cs), SymbolCode(END_OF_BLOCK))
    decreases |ts|
  {
    FixedWord(END_OF_BLOCK);
    if ts == [] {
      ss := [];
    } else {
      var s := TokenSymbol(ts[0], cs[0]);
      SymbolAdds(s, ts[0], out);
      var more := TokensAreSymbols(ts[1..], cs[1..], Expand(out, ts[0]));
      ss := [s] + more;
      OneMoreSymbol(s, more, ss, out);
      CatAssoc(cs[0], Concat(cs[1..]), SymbolCode(END_OF_BLOCK));
    }
  }

  lemma OneMoreSymbol(s: Symbol, more: seq<Symbol>, ss: seq<Symbol>, out: seq<byte>)
    requires ss == [s] + more && IsSymbol(FixedCodes(), s) && FitsAfter(s, |out|)
    requires IsPart(Fixed(more), Added(out, s))
    ensures IsPart(Fixed(ss), out) && AllAdded(FixedCodes(), ss, out) == AllAdded(FixedCodes(), more, Added(out, s))
    ensures BlockBits(FixedCodes(), ss, out)
         == Cat(SymbolBits(FixedCodes(), s), BlockBits(FixedCodes(), more, Added(out, s)))
  {
    assert ss[1..] == more;
  }

  // ----- Streams -----

  /** After the header the stream starts with the block, whatever padding and checksum follow it. */
  lemma PaddedReads(z: seq<byte>, c: Code, n: nat) returns (rest: nat)
    requires n == (c.len + 7) / 8 && c.Fits() && |z| >= 2 + n && Val(z[2..2 + n]) == c.val
    ensures Val(z[2..]) == Before(c, rest)
  {
    var trailer := Val(z[2 + n..]);
    rest := Join(0, 8 * n - c.len, trailer);
    assert z[2..] == z[2..2 + n] + z[2 + n..];
    ValAppend(z[2..2 + n], z[2 + n..]);
    JoinZero(c.val, c.len);
    LowSmall(c.val, c.len);
    JoinAssoc(c.val, c.len, 0, 8 * n - c.len, trailer);
  }

  /** Whatever tokens the search picked, the decompressor gives the data back. */
  lemma ZlibRoundTrip(z: seq<byte>, data: seq<byte>, ts: seq<Token>, cs: seq<Code>)
    requires IsZlib(z, data, ts, cs)
    ensures Zlib(z).Done? && Zlib(z).out == data
  {
    var c := BlockCode(cs);
    var rest := PaddedReads(z, c, (c.len + 7) / 8);
    HeaderReads(z);
    OnlyBlock(z, ts, cs, rest, 16 + c.len);
  }

  lemma OnlyBlock(z: seq<byte>, ts: seq<Token>, cs: seq<Code>, rest: nat, end: nat)
    requires AreTokens(ts, []) && AreTokenCodes(ts, cs) && end == 16 + BlockCode(cs).len <= 8 * |z|
    requires |z| >= 2 && Val(z[2..]) == Before(BlockCode(cs), rest)
    ensures Blocks(z, 16, []) == Done(ExpandAll([], ts), StreamAt(z, end))
  {
    DropBytes(z, 2);
    var ss := TokensAreSymbols(ts, cs, []);
    BlockIsPart(cs, ss);
    PartReads(z, Fixed(ss), true, 16, [], rest, end);
  }

  lemma BlockIsPart(cs: seq<Code>, ss: seq<Symbol>)
    requires IsPart(Fixed(ss), []) && BlockBits(FixedCodes(), ss, []) == Cat(Concat(cs), SymbolCode(END_OF_BLOCK))
    ensures BlockCode(cs) == PartBits(Fixed(ss), true, 16, [])
  {
    var end := SymbolCode(END_OF_BLOCK);
    CatAssoc(Cat(Code(1, 1), Code(1, 2)), Concat(cs), end);
    CatAssoc(Code(1, 1), Code(1, 2), Cat(Concat(cs), end));
  }

  lemma HeaderReads(z: seq<byte>)
    requires |z| >= 2 && z[..2] == HEADER
    ensures GoodHeader(At(z, 0), At(z, 1))
  {
    assert z[0] == z[..2][0] == 0x78 && z[1] == z[..2][1] == 0x5e;
  }

  /** Compressing and decompressing, for any data, quality and hash function. */
  method CompressAndDecompress(data: seq<byte>, quality: int, hash: (byte, byte, byte) -> nat)
    returns (ok: bool, back: seq<byte>)
    ensures ok && back == data
  {
    var z, ts, cs := Compress(data, quality, hash);
    ZlibRoundTrip(z, data, ts, cs);
    var a := new Zbuf(z);
    var result := a.ParseZlib();
    ok, back := result.Ok?, a.zout;
  }
}
