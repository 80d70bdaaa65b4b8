/** Streams that the program reads for ever: a block that brings its own codes, in which zeros go on. */
module EndlessStreams {
  import opened Bits
  import opened Canonical
  import opened BlockFormat
  import opened BlockEnds
  import opened CodeWords
  import opened CodedBlocks
  import opened OwnCodes
  import opened BlockStreams
  import opened Deflate
  import ZlibRoundTrip

  // ----- A head and nothing else -----

  /** v in n bytes, least significant first. */
  function BytesOf(v: nat, n: nat): (s: seq<byte>)
    ensures |s| == n
  {
    if n == 0 then [] else [v % 256] + BytesOf(v / 256, n - 1)
  }

  lemma {:induction false} ValOfBytes(v: nat, n: nat)
    requires v < Pow2(8 * n)
    ensures Val(BytesOf(v, n)) == v
    decreases n
  {
    if n > 0 {
      Pow2Add(8, 8 * (n - 1));
      assert Pow2(8) == 256;
      assert v / 256 < Pow2(8 * (n - 1));
      ValOfBytes(v / 256, n - 1);
      JoinIsOr(v % 256, 8, v / 256);
      ShlIsProduct(v / 256, 8);
    }
  }

  /** A bit string with zeros to the next whole byte. */
  function Packed(c: Code): seq<byte> {
    BytesOf(Before(c, 0), (c.len + 7) / 8)
  }

  lemma PackedReads(c: Code)
    ensures Val(Packed(c)) == Before(c, 0)
  {
    JoinZero(c.val, c.len);
    Pow2Monotone(c.len, 8 * ((c.len + 7) / 8));
    ValOfBytes(Before(c, 0), (c.len + 7) / 8);
  }

  /** A stream of one block that brings its codes and holds no more bits. */
  function HeadAlone(h: Head): seq<byte>
    requires h.Valid()
  {
    HEADER + Packed(Cat(Code(1, 1), Cat(Code(2, 2), HeadBits(h))))
  }

  /** Reading such a stream goes on for ever exactly when zeros go on from the beginning. */
  lemma HeadAloneReads(h: Head)
    requires h.Valid()
    ensures Zlib(HeadAlone(h)) == Bad(NeverEnds) <==> ZerosGoOn(h.codes, [])
  {
    var z, c := HeadAlone(h), Cat(Code(1, 1), Cat(Code(2, 2), HeadBits(h)));
    var end := 19 + HeadBits(h).len;
    assert z[2..] == Packed(c);
    PackedReads(c);
    DropBytes(z, 2);
    BeforeCat(Code(1, 1), Cat(Code(2, 2), HeadBits(h)), 0);
    BeforeCat(Code(2, 2), HeadBits(h), 0);
    ThreeBitsRead(1, 2, Before(HeadBits(h), 0), z, 16);
    HeadReads(h, 0, 19, end);
    ZerosNeverEnd(h.codes, end, []);
    BlocksUnfold(z, 16, [], 1, 2, OwnBlock(StreamAt(z, 19), []));
    ZlibRoundTrip.HeaderReads(z);
  }

  // ----- One of them -----

  /** One-bit codes for the byte 0 and for the end mark, and no distances. */
  function TwoCodes(): Codes {
    Codes([1] + Fill(0, 255) + [1], [0])
  }

  lemma {:induction false} TwoCount(lens: seq<nat>, n: nat, s: nat)
    requires n <= 257 && 1 <= s && lens == TwoCodes().lengths
    ensures Count(lens, n, s) == if s == 1 then One(n > 0) + One(n == 257) else 0
  {
    if n > 0 {
      TwoCount(lens, n - 1, s);
    }
  }

  lemma TwoAccepted(c: Codes)
    requires c == TwoCodes()
    ensures Usable(c)
  {
    forall s | 1 <= s <= 15 ensures HasRoom(c.lengths, s) && HasRoom(c.distances, s) {
      TwoCount(c.lengths, 257, s);
    }
  }

  /** Those codes in a head: the lengths 1 and 0 in two bits, a run of zeros in one. */
  function TwoSizes(): seq<nat> {
    [2, 2] + Fill(0, 16) + [1]
  }

  function TwoHead(): Head {
    Head(TwoCodes(), TwoSizes(), 19, [Once(1)] + ([Zeros(138)] + ([Zeros(117)] + ([Once(1)] + [Once(0)]))))
  }

  lemma {:induction false} SizeCount(sizes: seq<nat>, n: nat, s: nat)
    requires n <= 19 && 1 <= s && sizes == TwoSizes()
    ensures Count(sizes, n, s) == if s == 2 then (if n < 2 then n else 2) else if s == 1 then One(n == 19) else 0
  {
    if n > 0 {
      SizeCount(sizes, n - 1, s);
    }
  }

  lemma SizesAccepted(sizes: seq<nat>)
    requires sizes == TwoSizes()
    ensures IsLengths(sizes) && Accepted(sizes) && AreSizes(sizes, 19)
  {
    forall s | 1 <= s <= 15 ensures HasRoom(sizes, s) {
      SizeCount(sizes, 19, s);
      SizeCount(sizes, 19, 1);
    }
    forall v | 0 <= v < 19 ensures PLACE[v] < 19 {
      OrderIsPermutation(v);
    }
  }

  /** A list of runs with one more in front. */
  lemma OpBefore(sizes: seq<nat>, op: LengthOp, ops: seq<LengthOp>, lens: seq<nat>, longer: seq<nat>, all: seq<nat>)
    requires IsOp(sizes, op, lens) && longer == lens + RunOf(op, lens)
    requires AreOps(sizes, ops, longer) && AllLengths(sizes, ops, longer) == all
    ensures AreOps(sizes, [op] + ops, lens) && AllLengths(sizes, [op] + ops, lens) == all
  {
    assert ([op] + ops)[1..] == ops;
  }

  lemma ZerosIn(all: seq<nat>, from: nat, n: nat, to: nat)
    requires to == from + n <= |all| && forall i :: from <= i < to ==> all[i] == 0
    ensures all[..to] == all[..from] + Fill(0, n)
  {
  }

  lemma TwoOps(sizes: seq<nat>, all: seq<nat>)
    requires sizes == TwoSizes() && all == TwoCodes().lengths + TwoCodes().distances
    ensures AreOps(sizes, TwoHead().ops, []) && AllLengths(sizes, TwoHead().ops, []) == all
  {
    OpBefore(sizes, Once(0), [], all[..257], all, all);
    OpBefore(sizes, Once(1), [Once(0)], all[..256], all[..257], all);
    ZerosIn(all, 139, 117, 256);
    OpBefore(sizes, Zeros(117), [Once(1)] + [Once(0)], all[..139], all[..256], all);
    ZerosIn(all, 1, 138, 139);
    OpBefore(sizes, Zeros(138), [Zeros(117)] + ([Once(1)] + [Once(0)]), all[..1], all[..139], all);
    OpBefore(sizes, Once(1), [Zeros(138)] + ([Zeros(117)] + ([Once(1)] + [Once(0)])), [], all[..1], all);
  }

  lemma TwoHeadValid()
    ensures TwoHead().Valid()
  {
    TwoAccepted(TwoCodes());
    SizesAccepted(TwoSizes());
    TwoOps(TwoSizes(), TwoCodes().lengths + TwoCodes().distances);
  }

  lemma {:induction false} TwoShortest(lens: seq<nat>, n: nat)
    requires 1 <= n <= 257 && lens == TwoCodes().lengths
    ensures Shortest(lens, n) == 0
  {
    if n > 1 {
      TwoShortest(lens, n - 1);
    }
  }

  /** Zeros stand for the byte 0 in these codes. */
  lemma TwoGoOn(c: Codes)
    requires c == TwoCodes()
    ensures c.Valid() && ZerosGoOn(c, [])
  {
    TwoAccepted(c);
    TwoShortest(c.lengths, 257);
  }

  /** A stream that the program reads for ever. */
  lemma NeverEndsInput()
    ensures TwoHead().Valid() && Zlib(HeadAlone(TwoHead())) == Bad(NeverEnds)
  {
    TwoHeadValid();
    TwoGoOn(TwoCodes());
    HeadAloneReads(TwoHead());
  }
}
