/** The compressor: LZ77 search with hash chains and lazy matching, fixed-Huffman bit packing, and
the zlib wrapper. */
module Deflate {
  import opened Bits
  import opened Lz77
  import opened FixedCode
  import Adler
  import ByteReader

  // ----- Bit packing -----

  class BitWriter {
    var out: seq<byte>
    var bitbuf: nat
    var bitcount: nat
    ghost const start: nat

    constructor (header: seq<byte>)
      ensures Valid() && out == header && start == |header| && Written() == Code(0, 0)
    {
      out := header;
      bitbuf, bitcount := 0, 0;
      start := |header|;
    }

    ghost predicate Valid()
      reads this
    {
      start <= |out| && bitcount < 8 && bitbuf < Pow2(bitcount)
    }

    /** Everything written since the header, whole bytes and pending bits. */
    ghost function Written(): Code
      requires start <= |out|
      reads this
    {
      var n := 8 * |out[start..]|;
      Code(Join(Val(out[start..]), n, bitbuf), n + bitcount)
    }

    method Flush()
      requires start <= |out| && bitbuf < Pow2(bitcount)
      modifies this
      ensures Valid() && Written() == old(Written()) && old(out) <= out
    {
      while bitcount >= 8
        invariant start <= |out| && bitbuf < Pow2(bitcount)
        invariant Written() == old(Written()) && old(out) <= out
      {
        FlushStep(out[start..], bitbuf);
        DropBound(bitbuf, 8, bitcount - 8);
        assert (out + [Byte(bitbuf)])[start..] == out[start..] + [Byte(bitbuf)];
        out := out + [Byte(bitbuf)];
        bitbuf := Drop(bitbuf, 8);
        bitcount := bitcount - 8;
      }
    }

    /** Appends a field of at most 24 bits; the 32-bit buffer cannot overflow. */
    method Add(code: nat, codebits: nat)
      requires Valid() && codebits <= 24 && code < Pow2(codebits)
      modifies this
      ensures Valid() && Written() == Cat(old(Written()), Code(code, codebits)) && old(out) <= out
    {
      ghost var n := 8 * |out[start..]|;
      JoinAssoc(Val(out[start..]), n, bitbuf, bitcount, code);
      JoinBound(bitbuf, bitcount, code, codebits);
      bitbuf := Join(bitbuf, bitcount, code);
      bitcount := bitcount + codebits;
      assert bitbuf < 0x1_0000_0000 by {
        Pow2Monotone(bitcount, 32);
        Pow2Of32();
      }
      Flush();
    }

    /** Appends a Huffman code, highest bit first. */
    method AddReversed(code: nat, codebits: nat)
      requires Valid() && codebits <= 24
      modifies this
      ensures Valid() && Written() == Cat(old(Written()), Code(Rev(code, codebits), codebits)) && old(out) <= out
    {
      var res := BitRev(code, codebits);
      Add(res, codebits);
    }

    method AddSymbol(n: nat)
      requires Valid() && n < 288
      modifies this
      ensures Valid() && Written() == Cat(old(Written()), SymbolCode(n)) && old(out) <= out
    {
      if n <= 143 {
        AddReversed(0x30 + n, 8);
      } else if n <= 255 {
        AddReversed(0x190 + n - 144, 9);
      } else if n <= 279 {
        AddReversed(0 + n - 256, 7);
      } else {
        AddReversed(0xc0 + n - 280, 8);
      }
    }

    method AddExtra(limits: seq<nat>, extra: seq<nat>, j: nat, v: nat)
      requires Valid() && |limits| == |extra| + 1 && InSlot(limits, j, v)
      requires extra[j] <= 24 && v - limits[j] < Pow2(extra[j])
      modifies this
      ensures Valid() && Written() == Cat(old(Written()), ExtraCode(limits, extra, j, v)) && old(out) <= out
    {
      if extra[j] != 0 {
        Add(v - limits[j], extra[j]);
      } else {
        WrittenFits();
        JoinZero(Written().val, Written().len);
        LowSmall(Written().val, Written().len);
      }
    }

    method AddMatch(length: nat, distance: nat) returns (ghost c: Code)
      requires Valid() && 3 <= length <= 258 && 1 <= distance <= 32767
      modifies this
      ensures IsTokenCode(Match(length, distance), c) && c.Fits()
      ensures Valid() && Written() == Cat(old(Written()), c) && old(out) <= out
    {
      LengthsFit(0);
      DistancesFit(0);
      ghost var w := Written();
      var j := FindSlot(LENGTH_LIMITS, LENGTH_EXTRA, length);
      AddSymbol(j + 257);
      ExtraSmall(j, 0);
      AddExtra(LENGTH_LIMITS, LENGTH_EXTRA, j, length);
      var k := FindSlot(DISTANCE_LIMITS, DISTANCE_EXTRA, distance);
      AddReversed(k, 5);
      ExtraSmall(0, k);
      AddExtra(DISTANCE_LIMITS, DISTANCE_EXTRA, k, distance);
      c := MatchCode(j, length, k, distance);
      ghost var a, b := SymbolCode(257 + j), ExtraCode(LENGTH_LIMITS, LENGTH_EXTRA, j, length);
      ghost var d, e := Code(Rev(k, 5), 5), ExtraCode(DISTANCE_LIMITS, DISTANCE_EXTRA, k, distance);
      CatFits(Cat(Cat(a, b), d), e);
      CatAssoc(w, a, b);
      CatAssoc(w, Cat(a, b), d);
      CatAssoc(w, Cat(Cat(a, b), d), e);
    }

    lemma WrittenFits()
      requires Valid()
      ensures Written().Fits()
    {
      JoinBound(Val(out[start..]), 8 * |out[start..]|, bitbuf, bitcount);
    }

    /** Zero bits up to the next whole byte. */
    method Pad()
      requires Valid()
      modifies this
      ensures Valid() && bitcount == 0 && old(out) <= out
      ensures Written().val == old(Written()).val
      ensures old(Written()).len <= Written().len < old(Written()).len + 8
    {
      ghost var w := Written();
      WrittenFits();
      while bitcount != 0
        invariant Valid() && old(out) <= out
        invariant Written().val == w.val && w.len <= Written().len
        invariant bitcount == 0 ==> Written().len < w.len + 8
        invariant bitcount != 0 ==> Written().len - w.len == bitcount - old(bitcount)
        decreases if bitcount == 0 then 0 else 8 - bitcount
      {
        WrittenFits();
        JoinZero(Written().val, Written().len);
        LowSmall(Written().val, Written().len);
        PadStep(bitcount, Written().len);
        Add(0, 1);
      }
    }

    /** The pending bits are the length modulo a byte. */
    lemma PadStep(count: nat, len: nat)
      requires Valid() && count == bitcount && len == Written().len
      ensures len % 8 == count
    {
    }
  }

  function Byte(v: nat): byte {
    v % 256
  }

  lemma ByteIsLow(v: nat)
    ensures Low(v, 8) == v % 256
  {
    assert Pow2(8) == 256;
    LowIsRemainder(v, 8, 256);
  }

  lemma FlushStep(whole: seq<byte>, bitbuf: nat)
    ensures var n := 8 * |whole|;
            Join(Val(whole + [Byte(bitbuf)]), n + 8, Drop(bitbuf, 8)) == Join(Val(whole), n, bitbuf)
  {
    var n, b := 8 * |whole|, Byte(bitbuf);
    ByteIsLow(bitbuf);
    ValAppend(whole, [b]);
    assert Val([b]) == Join(b, 8, 0);
    JoinZero(b, 8);
    LowLow(bitbuf, 8, 8);
    JoinAssoc(Val(whole), n, b, 8, Drop(bitbuf, 8));
    JoinLow(bitbuf, 8, Drop(bitbuf, 8));
    Split(bitbuf, 8);
  }

  lemma Pow2Of32()
    ensures Pow2(32) == 0x1_0000_0000
  {
    Pow2Of16();
    Pow2Add(16, 16);
  }

  lemma ExtraSmall(j: nat, k: nat)
    requires j < 29 && k < 30
    ensures LENGTH_EXTRA[j] <= 24 && DISTANCE_EXTRA[k] <= 24
  {
  }

  /** One bit at a time from the bottom of the code to the bottom of the result. */
  method BitRev(code: nat, codebits: nat) returns (res: nat)
    ensures res == Rev(code, codebits)
  {
    res := 0;
    var c, n := code, codebits;
    while n != 0
      invariant 0 <= n <= codebits
      invariant c == Drop(code, codebits - n)
      invariant res == Rev(code, codebits - n)
    {
      res := 2 * res + c % 2;
      DropDrop(code, codebits - n, 1);
      c := Drop(c, 1);
      n := n - 1;
    }
  }

  // ----- Search -----

  const HASH_SIZE := 16384
  const WINDOW := 32768

  /** The length of the common part of what starts at p and at i, at most 258. */
  method CountMatch(data: seq<byte>, p: nat, i: nat, limit: nat) returns (m: nat)
    requires p < i && i + limit <= |data|
    ensures m <= limit && m <= 258 && data[p..p + m] == data[i..i + m]
    ensures m == limit || m == 258 || data[p + m] != data[i + m]
  {
    m := 0;
    while m < limit && m < 258
      invariant m <= limit && m <= 258 && data[p..p + m] == data[i..i + m]
    {
      if data[p + m] != data[i + m] { break; }
      assert data[p..p + m + 1] == data[p..p + m] + [data[p + m]];
      assert data[i..i + m + 1] == data[i..i + m] + [data[i + m]];
      m := m + 1;
    }
  }

  /** Every remembered position lies before i. */
  predicate Earlier(chain: seq<nat>, i: nat) {
    forall p :: p in chain ==> p < i
  }

  /** The chain's longest match in the window, the latest one among equals; -1 without a match of 3. */
  method FindBest(data: seq<byte>, chain: seq<nat>, i: nat) returns (best: nat, bestloc: int)
    requires i <= |data| && Earlier(chain, i)
    ensures 3 <= best <= 258
    ensures bestloc == -1 || (0 <= bestloc < i && i - bestloc <= 32767 && i + best <= |data|
                              && data[bestloc..bestloc + best] == data[i..i + best])
  {
    best, bestloc := 3, -1;
    for j := 0 to |chain|
      invariant 3 <= best <= 258
      invariant bestloc == -1 || (0 <= bestloc < i && i - bestloc <= 32767 && i + best <= |data|
                                  && data[bestloc..bestloc + best] == data[i..i + best])
    {
      assert chain[j] in chain;
      if chain[j] > i - WINDOW {
        var d := CountMatch(data, chain[j], i, |data| - i);
        if d >= best {
          best, bestloc := d, chain[j];
        }
      }
    }
  }

  /** Whether the next position has a longer match than best. */
  method BetterNext(data: seq<byte>, chain: seq<nat>, i: nat, best: nat) returns (better: bool)
    requires i < |data| && Earlier(chain, i + 1)
  {
    for j := 0 to |chain| {
      assert chain[j] in chain;
      if chain[j] > i - (WINDOW - 1) {
        var e := CountMatch(data, chain[j], i + 1, |data| - i - 1);
        if e > best {
          return true;
        }
      }
    }
    better := false;
  }

  /** What the chain becomes when position i is remembered: a full chain loses its older half. */
  function Remember(chain: seq<nat>, i: nat, quality: nat): (r: seq<nat>)
    requires Earlier(chain, i)
    ensures Earlier(r, i + 1)
  {
    var kept := if |chain| == 2 * quality then chain[quality..] else chain;
    assert forall p :: p in kept ==> p in chain;
    kept + [i]
  }

  /** The match to emit at position i, if any: none when the next position has a better one. */
  method Search(data: seq<byte>, table: array<seq<nat>>, i: nat, quality: nat, hash: (byte, byte, byte) -> nat)
    returns (best: nat, bestloc: int)
    requires table.Length == HASH_SIZE && i + 3 < |data|
    requires forall h :: 0 <= h < HASH_SIZE ==> Earlier(table[h], i)
    modifies table
    ensures forall h :: 0 <= h < HASH_SIZE ==> Earlier(table[h], i + 1)
    ensures 3 <= best <= 258
    ensures bestloc == -1 || (0 <= bestloc < i && i - bestloc <= 32767 && i + best <= |data|
                              && data[bestloc..bestloc + best] == data[i..i + best])
  {
    var h := hash(data[i], data[i + 1], data[i + 2]) % HASH_SIZE;
    best, bestloc := FindBest(data, table[h], i);
    table[h] := Remember(table[h], i, quality);
    if bestloc != -1 {
      h := hash(data[i + 1], data[i + 2], data[i + 3]) % HASH_SIZE;
      var better := BetterNext(data, table[h], i, best);
      if better {
        bestloc := -1;
      }
    }
  }

  // ----- The compressor -----

  const HEADER: seq<byte> := [0x78, 0x5e]

  /** z is the zlib stream of data made from these tokens and their bit strings: the header, one
  final fixed block padded with zeros to a whole byte, and the checksum. */
  ghost predicate IsZlib(z: seq<byte>, data: seq<byte>, ts: seq<Token>, cs: seq<Code>) {
    var c := BlockCode(cs);
    var n := (c.len + 7) / 8;
    && AreTokens(ts, []) && ExpandAll([], ts) == data
    && AreTokenCodes(ts, cs)
    && |z| == 2 + n + 4 && z[..2] == HEADER
    && c.Fits() && Val(z[2..2 + n]) == c.val
    && z[2 + n..] == Adler.Trailer(Adler.Sums(data))
  }

  lemma StreamFrame(z: seq<byte>, data: seq<byte>, ts: seq<Token>, cs: seq<Code>)
    requires IsZlib(z, data, ts, cs)
    ensures |z| >= 6 && z[..2] == HEADER && z[|z| - 4..] == Adler.Trailer(Adler.Sums(data))
  {
  }

  /** The stream begins with the two bytes of its header and ends with the checksum of the data, the most significant
  byte first. */
  lemma StreamEnds(z: seq<byte>, data: seq<byte>, ts: seq<Token>, cs: seq<Code>)
    requires IsZlib(z, data, ts, cs)
    ensures |z| >= 6 && z[0] == 0x78 && z[1] == 0x5e
    ensures ByteReader.Be32(z, |z| - 4) == Adler.Adler32(data)
  {
    StreamFrame(z, data, ts, cs);
    assert z[0] == z[..2][0] && z[1] == z[..2][1];
    Adler.Adler32Is(data);
    TrailerReads(z, |z| - 4, Adler.Sums(data).0, Adler.Sums(data).1);
  }

  lemma TrailerReads(z: seq<byte>, p: nat, a: nat, b: nat)
    requires p + 4 == |z| && z[p..] == Adler.Trailer((a, b)) && a < 0x1_0000 && b < 0x1_0000
    ensures ByteReader.Be32(z, p) == b * 0x1_0000 + a
  {
    var t := z[p..];
    assert t[0] == z[p] && t[1] == z[p + 1] && t[2] == z[p + 2] && t[3] == z[p + 3];
    ByteReader.Be32Is(z, p);
    TwoBytes(a);
    TwoBytes(b);
  }

  lemma TwoBytes(v: nat)
    requires v < 0x1_0000
    ensures v / 256 % 256 * 256 + v % 256 == v
  {
  }

  /** The tokens stand for the first i bytes, and their bit strings, after the three bits of the block, are c. */
  ghost predicate Told(data: seq<byte>, i: nat, ts: seq<Token>, cs: seq<Code>, c: Code) {
    && i <= |data| && AreTokens(ts, []) && ExpandAll([], ts) == data[..i]
    && AreTokenCodes(ts, cs) && c == Cat(Cat(Code(1, 1), Code(1, 2)), Concat(cs))
  }

  /** The tokens so far stand for the first i bytes and are what has been written. */
  ghost predicate Progress(w: BitWriter, data: seq<byte>, i: nat, ts: seq<Token>, cs: seq<Code>)
    reads w
  {
    && w.Valid() && w.start == 2 <= |w.out| && w.out[..2] == HEADER
    && Told(data, i, ts, cs, w.Written())
  }

  /** One more token, which takes the data from i to next. */
  lemma ToldMore(data: seq<byte>, i: nat, next: nat, ts: seq<Token>, cs: seq<Code>, written: Code, t: Token, c: Code)
    requires Told(data, i, ts, cs, written) && next <= |data| && IsToken(t, i) && Expand(data[..i], t) == data[..next]
    requires IsTokenCode(t, c) && c.Fits()
    ensures Told(data, next, ts + [t], cs + [c], Cat(written, c))
  {
    ExpandSnoc([], ts, t);
    ConcatSnoc(cs, c);
    CatAssoc(Cat(Code(1, 1), Code(1, 2)), Concat(cs), c);
  }

  method EmitLiteral(w: BitWriter, data: seq<byte>, i: nat, ghost ts: seq<Token>, ghost cs: seq<Code>)
    returns (ghost ts': seq<Token>, ghost cs': seq<Code>)
    requires Progress(w, data, i, ts, cs) && i < |data|
    modifies w
    ensures Progress(w, data, i + 1, ts', cs')
  {
    ghost var t, c := Literal(data[i]), SymbolCode(data[i]);
    ts', cs' := ts + [t], cs + [c];
    assert data[..i] + [data[i]] == data[..i + 1];
    ToldMore(data, i, i + 1, ts, cs, w.Written(), t, c);
    w.AddSymbol(data[i]);
  }

  method EmitMatch(w: BitWriter, data: seq<byte>, i: nat, p: nat, length: nat,
                   ghost ts: seq<Token>, ghost cs: seq<Code>)
    returns (ghost ts': seq<Token>, ghost cs': seq<Code>)
    requires Progress(w, data, i, ts, cs)
    requires 3 <= length <= 258 && p < i && i - p <= 32767 && i + length <= |data|
    requires data[p..p + length] == data[i..i + length]
    modifies w
    ensures Progress(w, data, i + length, ts', cs')
  {
    MatchExpands(data, i, p, length, i + length, Match(length, i - p));
    ts', cs' := EmitCopy(w, data, i, i + length, length, i - p, ts, cs);
  }

  method EmitCopy(w: BitWriter, ghost data: seq<byte>, ghost i: nat, ghost next: nat, length: nat, distance: nat,
                  ghost ts: seq<Token>, ghost cs: seq<Code>)
    returns (ghost ts': seq<Token>, ghost cs': seq<Code>)
    requires Progress(w, data, i, ts, cs) && 3 <= length <= 258 && 1 <= distance <= 32767 && next <= |data|
    requires IsToken(Match(length, distance), i) && Expand(data[..i], Match(length, distance)) == data[..next]
    modifies w
    ensures Progress(w, data, next, ts', cs')
  {
    ghost var t, written := Match(length, distance), w.Written();
    ghost var c := w.AddMatch(length, distance);
    ts', cs' := ts + [t], cs + [c];
    ToldMore(data, i, next, ts, cs, written, t, c);
  }

  lemma MatchExpands(data: seq<byte>, i: nat, p: nat, length: nat, next: nat, t: Token)
    requires 3 <= length <= 258 && p < i && i - p <= 32767 && i + length == next <= |data|
    requires data[p..p + length] == data[i..i + length] && t == Match(length, i - p)
    ensures IsToken(t, i) && Expand(data[..i], t) == data[..next]
  {
    CopyOfMatch(data, p, i, length);
  }

  method Start(data: seq<byte>) returns (w: BitWriter)
    ensures fresh(w) && Progress(w, data, 0, [], [])
  {
    w := new BitWriter(HEADER);
    assert Pow2(1) == 2 && Pow2(2) == 4;
    w.Add(1, 1);
    w.Add(1, 2);
    assert w.Written() == Cat(Code(1, 1), Code(1, 2));
    assert Code(1, 2).Fits();
    CatFits(Code(1, 1), Code(1, 2));
    JoinZero(Cat(Code(1, 1), Code(1, 2)).val, 3);
    LowSmall(Cat(Code(1, 1), Code(1, 2)).val, 3);
  }

  method Finish(w: BitWriter, data: seq<byte>, ghost ts: seq<Token>, ghost cs: seq<Code>) returns (z: seq<byte>)
    requires Progress(w, data, |data|, ts, cs)
    modifies w
    ensures IsZlib(z, data, ts, cs)
    ensures |z| >= 6 && z[0] == 0x78 && z[1] == 0x5e && ByteReader.Be32(z, |z| - 4) == Adler.Adler32(data)
  {
    z := PadAndSum(w, data, ts, cs);
    StreamEnds(z, data, ts, cs);
  }

  method PadAndSum(w: BitWriter, data: seq<byte>, ghost ts: seq<Token>, ghost cs: seq<Code>) returns (z: seq<byte>)
    requires Progress(w, data, |data|, ts, cs)
    modifies w
    ensures IsZlib(z, data, ts, cs)
  {
    w.AddSymbol(END_OF_BLOCK);
    ghost var c := w.Written();
    assert c == BlockCode(cs);
    w.WrittenFits();
    w.Pad();
    JoinZero(Val(w.out[2..]), 8 * |w.out[2..]|);
    ValBound(w.out[2..]);
    LowSmall(Val(w.out[2..]), 8 * |w.out[2..]|);
    assert w.bitbuf == 0;
    var s1, s2 := Adler.Checksum(data);
    z := w.out + [s2 / 256 % 256, s2 % 256, s1 / 256 % 256, s1 % 256];
    ghost var n := (c.len + 7) / 8;
    assert |w.out[2..]| == n;
    assert z[2..2 + n] == w.out[2..];
    assert data[..|data|] == data;
  }

  /** For any hash function and any quality, the stream stands for the data. */
  method Compress(data: seq<byte>, quality: int, hash: (byte, byte, byte) -> nat)
    returns (z: seq<byte>, ghost ts: seq<Token>, ghost cs: seq<Code>)
    ensures IsZlib(z, data, ts, cs)
    ensures |z| >= 6 && z[0] == 0x78 && z[1] == 0x5e && ByteReader.Be32(z, |z| - 4) == Adler.Adler32(data)
  {
    var q := if quality < 5 then 5 else quality;
    var w := Start(data);
    ts, cs := [], [];
    var table := new seq<nat>[HASH_SIZE](_ => []);
    var i := 0;
    while i < |data| - 3
      invariant Progress(w, data, i, ts, cs) && fresh(w)
      invariant forall h :: 0 <= h < HASH_SIZE ==> Earlier(table[h], i)
      decreases |data| - i
    {
      var best, bestloc := Search(data, table, i, q, hash);
      if bestloc != -1 {
        ts, cs := EmitMatch(w, data, i, bestloc, best, ts, cs);
        i := i + best;
      } else {
        ts, cs := EmitLiteral(w, data, i, ts, cs);
        i := i + 1;
      }
    }
    while i < |data|
      invariant Progress(w, data, i, ts, cs) && fresh(w)
    {
      ts, cs := EmitLiteral(w, data, i, ts, cs);
      i := i + 1;
    }
    z := Finish(w, data, ts, cs);
  }
}
