/** Blocks of symbols written in any accepted codes, as section 3.2 of RFC 1951 has them, read back: literals and
references, the lengths of the codes in a block that brings its own, and stored bytes. */
module CodedBlocks {
  import opened Bits
  import opened Canonical
  import opened Huffman
  import opened CodeWords
  import opened Lz77
  import opened FixedCode
  import opened BlockFormat

  // ----- Symbols -----

  /** A literal, or a length symbol and a distance symbol with their extra bits. */
  datatype Symbol = Plain(b: byte) | Reference(j: nat, x: nat, k: nat, y: nat)

  predicate HasWord(lens: seq<nat>, v: nat) {
    v < |lens| && lens[v] > 0
  }

  predicate IsSymbol(c: Codes, s: Symbol) {
    match s
    case Plain(b) => HasWord(c.lengths, b)
    case Reference(j, x, k, y) =>
      && j < 29 && x < Pow2(LENGTH_EXTRA[j]) && HasWord(c.lengths, 257 + j)
      && k < 30 && y < Pow2(DISTANCE_EXTRA[k]) && HasWord(c.distances, k)
  }

  function SymbolBits(c: Codes, s: Symbol): Code
    requires IsSymbol(c, s)
  {
    match s
    case Plain(b) => Word(c.lengths, b)
    case Reference(j, x, k, y) => ReferenceBits(c, j, x, k, y)
  }

  function ReferenceBits(c: Codes, j: nat, x: nat, k: nat, y: nat): Code
    requires IsSymbol(c, Reference(j, x, k, y))
  {
    Cat(Cat(Cat(Word(c.lengths, 257 + j), Code(x, LENGTH_EXTRA[j])), Word(c.distances, k)), Code(y, DISTANCE_EXTRA[k]))
  }

  /** What a symbol may add after n bytes. */
  predicate FitsAfter(s: Symbol, n: nat) {
    s.Reference? ==> s.j < 29 && s.k < 30 && DISTANCE_BASE[s.k] + s.y <= n
  }

  function Added(out: seq<byte>, s: Symbol): seq<byte>
    requires FitsAfter(s, |out|)
  {
    match s
    case Plain(b) => out + [b]
    case Reference(j, x, k, y) =>
      BasesPositive(j, k);
      Copy(out, DISTANCE_BASE[k] + y, LENGTH_BASE[j] + x)
  }

  lemma BasesPositive(j: nat, k: nat)
    requires j < 29 && k < 30
    ensures LENGTH_BASE[j] > 0 && DISTANCE_BASE[k] > 0
  {
  }

  /** The item a symbol reads as. */
  function ItemOf(s: Symbol, rest: Stream): Item
    requires s.Reference? ==> s.j < 29 && s.k < 30
  {
    match s
    case Plain(b) => Byte(b, rest)
    case Reference(j, x, k, y) => Back(LENGTH_BASE[j] + x, DISTANCE_BASE[k] + y, rest)
  }

  predicate Usable(c: Codes) {
    c.Valid() && Accepted(c.lengths) && Accepted(c.distances) && HasWord(c.lengths, END_OF_BLOCK)
  }

  lemma WordReads(lens: seq<nat>, v: nat, rest: nat, at: nat)
    requires IsLengths(lens) && Accepted(lens) && HasWord(lens, v)
    ensures Decoded(lens, Before(Word(lens, v), rest)) == v
    ensures Stream(Before(Word(lens, v), rest), at).After(lens[v]) == Stream(rest, at + lens[v])
  {
    CodeFits(lens, v);
    WordDecodes(lens, v, rest);
  }

  lemma SymbolReads(c: Codes, s: Symbol, rest: nat, at: nat, end: nat)
    requires Usable(c) && IsSymbol(c, s) && end == at + SymbolBits(c, s).len
    ensures NextItem(c, Stream(Before(SymbolBits(c, s), rest), at)) == ItemOf(s, Stream(rest, end))
  {
    match s
    case Plain(b) => WordReads(c.lengths, b, rest, at);
    case Reference(j, x, k, y) => ReferenceReads(c, j, x, k, y, rest, at, end);
  }

  lemma ReferenceReads(c: Codes, j: nat, x: nat, k: nat, y: nat, rest: nat, at: nat, end: nat)
    requires Usable(c) && IsSymbol(c, Reference(j, x, k, y)) && end == at + SymbolBits(c, Reference(j, x, k, y)).len
    ensures NextItem(c, Stream(Before(SymbolBits(c, Reference(j, x, k, y)), rest), at))
         == Back(LENGTH_BASE[j] + x, DISTANCE_BASE[k] + y, Stream(rest, end))
  {
    var a, b := Word(c.lengths, 257 + j), Code(x, LENGTH_EXTRA[j]);
    var d, e := Word(c.distances, k), Code(y, DISTANCE_EXTRA[k]);
    FourFields(a, b, d, e, rest);
    var r2 := Before(d, Before(e, rest));
    WordReads(c.lengths, 257 + j, Before(b, r2), at);
    LengthReads(c, j, x, r2, at + a.len, at + a.len + b.len);
    DistanceReads(c, LENGTH_BASE[j] + x, k, y, rest, at + a.len + b.len, end);
    SymbolItem(c, Stream(Before(a, Before(b, r2)), at), 257 + j, Stream(Before(b, r2), at + a.len));
  }

  lemma FourFields(a: Code, b: Code, d: Code, e: Code, rest: nat)
    ensures Before(Cat(Cat(Cat(a, b), d), e), rest) == Before(a, Before(b, Before(d, Before(e, rest))))
  {
    BeforeCat(Cat(Cat(a, b), d), e, rest);
    BeforeCat(Cat(a, b), d, Before(e, rest));
    BeforeCat(a, b, Before(d, Before(e, rest)));
  }

  lemma LengthReads(c: Codes, j: nat, x: nat, rest: nat, at: nat, next: nat)
    requires c.Valid() && j < 29 && x < Pow2(LENGTH_EXTRA[j]) && next == at + LENGTH_EXTRA[j]
    ensures BlockFormat.Reference(c, j, Stream(Before(Code(x, LENGTH_EXTRA[j]), rest), at))
         == Distance(c, LENGTH_BASE[j] + x, Stream(rest, next))
  {
    FieldReads(x, LENGTH_EXTRA[j], rest);
  }

  lemma DistanceReads(c: Codes, length: nat, k: nat, y: nat, rest: nat, at: nat, end: nat)
    requires Usable(c) && k < 30 && y < Pow2(DISTANCE_EXTRA[k]) && HasWord(c.distances, k)
    requires end == at + c.distances[k] + DISTANCE_EXTRA[k]
    ensures Distance(c, length, Stream(Before(Word(c.distances, k), Before(Code(y, DISTANCE_EXTRA[k]), rest)), at))
         == Back(length, DISTANCE_BASE[k] + y, Stream(rest, end))
  {
    WordReads(c.distances, k, Before(Code(y, DISTANCE_EXTRA[k]), rest), at);
    FieldReads(y, DISTANCE_EXTRA[k], rest);
  }

  // ----- A block's symbols -----

  predicate AreSymbols(c: Codes, ss: seq<Symbol>, out: seq<byte>) {
    ss == [] || (IsSymbol(c, ss[0]) && FitsAfter(ss[0], |out|) && AreSymbols(c, ss[1..], Added(out, ss[0])))
  }

  function AllAdded(c: Codes, ss: seq<Symbol>, out: seq<byte>): seq<byte>
    requires AreSymbols(c, ss, out)
    decreases |ss|
  {
    if ss == [] then out else AllAdded(c, ss[1..], Added(out, ss[0]))
  }

  /** The symbols and the end mark. */
  function BlockBits(c: Codes, ss: seq<Symbol>, out: seq<byte>): Code
    requires HasWord(c.lengths, END_OF_BLOCK) && AreSymbols(c, ss, out)
    decreases |ss|
  {
    if ss == [] then Word(c.lengths, END_OF_BLOCK)
    else Cat(SymbolBits(c, ss[0]), BlockBits(c, ss[1..], Added(out, ss[0])))
  }

  /** Reading the symbols of a block gives what they add, and ends after the end mark. */
  lemma {:induction false} BlockReads(c: Codes, ss: seq<Symbol>, out: seq<byte>, rest: nat, at: nat, end: nat)
    requires Usable(c) && AreSymbols(c, ss, out) && end == at + BlockBits(c, ss, out).len
    ensures Block(c, Stream(Before(BlockBits(c, ss, out), rest), at), out)
         == Done(AllAdded(c, ss, out), Stream(rest, end))
    decreases |ss|
  {
    var r := Stream(Before(BlockBits(c, ss, out), rest), at);
    if ss == [] {
      WordReads(c.lengths, END_OF_BLOCK, rest, at);
      SymbolItem(c, r, END_OF_BLOCK, Stream(rest, end));
    } else {
      var a, more := SymbolBits(c, ss[0]), BlockBits(c, ss[1..], Added(out, ss[0]));
      BeforeCat(a, more, rest);
      SymbolReads(c, ss[0], Before(more, rest), at, at + a.len);
      NotYetZero(c, ss, out, rest);
      BlockGoesOn(c, r, ss[0], Stream(Before(more, rest), at + a.len), out);
      BlockReads(c, ss[1..], Added(out, ss[0]), rest, at + a.len, end);
    }
  }

  lemma BlockGoesOn(c: Codes, r: Stream, s: Symbol, rest: Stream, out: seq<byte>)
    requires c.Valid() && r.val > 0 && FitsAfter(s, |out|) && NextItem(c, r) == ItemOf(s, rest)
    ensures Block(c, r, out) == Block(c, rest, Added(out, s))
  {
    Grows(s, rest, out);
    BlockAfter(c, r, out, ItemOf(s, rest), Added(out, s));
  }

  lemma Grows(s: Symbol, rest: Stream, out: seq<byte>)
    requires FitsAfter(s, |out|)
    ensures Grow(ItemOf(s, rest), out) == Grown(Added(out, s))
  {
    if s.Reference? {
      BasesPositive(s.j, s.k);
    }
  }

  /** The end mark is still to come, so that not all bits are zero: zeros would be the end mark at once. */
  lemma NotYetZero(c: Codes, ss: seq<Symbol>, out: seq<byte>, rest: nat)
    requires Usable(c) && AreSymbols(c, ss, out) && ss != []
    ensures Before(BlockBits(c, ss, out), rest) > 0
  {
    var v := if ss[0].Plain? then ss[0].b as nat else 257 + ss[0].j;
    if Before(BlockBits(c, ss, out), rest) == 0 {
      ZerosEnd(c, ss, out, rest);
      StartsWith(c, ss, out, rest, v);
      assert false;
    }
  }

  lemma {:induction false} ZerosEnd(c: Codes, ss: seq<Symbol>, out: seq<byte>, rest: nat)
    requires Usable(c) && AreSymbols(c, ss, out) && Before(BlockBits(c, ss, out), rest) == 0
    ensures Decoded(c.lengths, 0) == END_OF_BLOCK
    decreases |ss|
  {
    if ss == [] {
      WordReads(c.lengths, END_OF_BLOCK, rest, 0);
    } else {
      var a, more := SymbolBits(c, ss[0]), BlockBits(c, ss[1..], Added(out, ss[0]));
      BeforeCat(a, more, rest);
      ZerosFollow(a.val, a.len, Before(more, rest));
      ZerosEnd(c, ss[1..], Added(out, ss[0]), rest);
    }
  }

  lemma StartsWith(c: Codes, ss: seq<Symbol>, out: seq<byte>, rest: nat, v: nat)
    requires Usable(c) && AreSymbols(c, ss, out) && ss != []
    requires v == if ss[0].Plain? then ss[0].b as nat else 257 + ss[0].j
    ensures Decoded(c.lengths, Before(BlockBits(c, ss, out), rest)) == v
  {
    var a, more := SymbolBits(c, ss[0]), BlockBits(c, ss[1..], Added(out, ss[0]));
    BeforeCat(a, more, rest);
    match ss[0]
    case Plain(b) => WordReads(c.lengths, v, Before(more, rest), 0);
    case Reference(j, x, k, y) =>
      FourFields(Word(c.lengths, v), Code(x, LENGTH_EXTRA[j]), Word(c.distances, k), Code(y, DISTANCE_EXTRA[k]),
                 Before(more, rest));
      WordReads(c.lengths, v, Before(Code(x, LENGTH_EXTRA[j]),
                                     Before(Word(c.distances, k),
                                            Before(Code(y, DISTANCE_EXTRA[k]), Before(more, rest)))), 0);
  }
}
