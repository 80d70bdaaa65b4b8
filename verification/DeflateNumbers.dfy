/** The numbers of the deflate format by arithmetic: what each length and distance symbol stands for, the fields at
the start of a block that brings its own codes, and the headers of a stream. Sections 3.2.3 to 3.2.7 of RFC 1951 and
section 2.2 of RFC 1950. */
module DeflateNumbers {
  import opened Bits
  import opened Canonical
  import opened Lz77
  import opened FixedCode
  import opened BlockFormat

  // ----- Lengths and distances -----

  /** The extra bits of length symbol 257 + j: four symbols to every number of bits, after four of a single length.
  The longest match has a symbol of its own, and two symbols have no meaning. */
  function LengthBits(j: nat): nat {
    if j < 4 || j >= 28 then 0 else (j - 4) / 4
  }

  /** The least length of symbol 257 + j. */
  function LengthStart(j: nat): nat {
    if j < 4 then 3 + j
    else if j < 28 then 3 + Pow2((j - 4) / 4) * (4 + j % 4)
    else if j == 28 then 258
    else 0
  }

  /** The extra bits of distance symbol k: two symbols to every number of bits, after two of a single distance. Two
  symbols have no meaning. */
  function DistanceBits(k: nat): nat {
    if k < 2 || k >= 30 then 0 else (k - 2) / 2
  }

  /** The least distance of symbol k. */
  function DistanceStart(k: nat): nat {
    if k < 2 then 1 + k
    else if k < 30 then 1 + Pow2((k - 2) / 2) * (2 + k % 2)
    else 0
  }

  function Power(e: nat): nat {
    if e == 0 then 1
    else if e == 1 then 2
    else if e == 2 then 4
    else if e == 3 then 8
    else if e == 4 then 16
    else if e == 5 then 32
    else if e == 6 then 64
    else if e == 7 then 128
    else if e == 8 then 256
    else if e == 9 then 512
    else if e == 10 then 1024
    else if e == 11 then 2048
    else if e == 12 then 4096
    else 8192
  }

  lemma PowerIs(e: nat)
    requires e <= 13
    ensures Pow2(e) == Power(e)
  {
    Powers();
  }

  /** The tables of both sides are this arithmetic. */
  lemma LengthBitsAre(j: nat)
    requires j < 31
    ensures READ_LENGTH_EXTRA[j] == LengthBits(j)
    ensures j < 29 ==> LENGTH_EXTRA[j] == LengthBits(j)
  {
    assert j < 29 ==> LENGTH_EXTRA[j] == READ_LENGTH_EXTRA[j];
  }

  lemma DistanceBitsAre(k: nat)
    requires k < 32
    ensures READ_DISTANCE_EXTRA[k] == DistanceBits(k)
    ensures k < 30 ==> DISTANCE_EXTRA[k] == DistanceBits(k)
  {
    assert k < 30 ==> DISTANCE_EXTRA[k] == READ_DISTANCE_EXTRA[k];
  }

  lemma LengthTable(j: nat)
    requires 4 <= j < 28
    ensures LENGTH_BASE[j] == 3 + Power((j - 4) / 4) * (4 + j % 4)
  {
  }

  lemma DistanceTable(k: nat)
    requires 2 <= k < 30
    ensures DISTANCE_BASE[k] == 1 + Power((k - 2) / 2) * (2 + k % 2)
  {
  }

  lemma LengthStartsAre(j: nat)
    requires j < 31
    ensures READ_LENGTH_BASE[j] == LengthStart(j)
    ensures j < 29 ==> LENGTH_BASE[j] == LengthStart(j)
  {
    if 4 <= j < 28 {
      LengthTable(j);
      PowerIs((j - 4) / 4);
      assert READ_LENGTH_BASE[j] == LENGTH_BASE[j];
    }
  }

  lemma DistanceStartsAre(k: nat)
    requires k < 32
    ensures READ_DISTANCE_BASE[k] == DistanceStart(k)
    ensures k < 30 ==> DISTANCE_BASE[k] == DistanceStart(k)
  {
    if 2 <= k < 30 {
      DistanceTable(k);
      PowerIs((k - 2) / 2);
      assert READ_DISTANCE_BASE[k] == DISTANCE_BASE[k];
    }
  }

  /** The slots follow each other without gap or overlap, but for the longest match with a slot of its own. */
  lemma LengthSlotsMeet(j: nat)
    ensures j < 27 ==> LengthStart(j + 1) == LengthStart(j) + Pow2(LengthBits(j))
  {
    if 4 <= j < 27 {
      var e, t := (j - 4) / 4, j % 4;
      assert j == 4 * e + 4 + t;
      OneMore(Pow2(e), 4, t);
      if t < 3 {
        assert (j + 1 - 4) / 4 == e && (j + 1) % 4 == t + 1;
      } else {
        assert (j + 1 - 4) / 4 == e + 1 && (j + 1) % 4 == 0;
        assert Pow2(e + 1) == 2 * Pow2(e);
      }
    }
  }

  lemma DistanceSlotsMeet(k: nat)
    ensures k < 29 ==> DistanceStart(k + 1) == DistanceStart(k) + Pow2(DistanceBits(k))
  {
    if 2 <= k < 29 {
      var f, t := (k - 2) / 2, k % 2;
      assert k == 2 * f + 2 + t;
      OneMore(Pow2(f), 2, t);
      if t == 0 {
        assert (k + 1 - 2) / 2 == f && (k + 1) % 2 == 1;
      } else {
        assert (k + 1 - 2) / 2 == f + 1 && (k + 1) % 2 == 0;
        assert Pow2(f + 1) == 2 * Pow2(f);
      }
    }
  }

  /** The last slots end with the longest match and the window. */
  lemma SlotsEnd(j: nat, k: nat)
    requires j == 27 && k == 29
    ensures LengthStart(j) + Pow2(LengthBits(j)) == LengthStart(28) + 1 == 259
    ensures DistanceStart(k) + Pow2(DistanceBits(k)) == 32769
  {
    PowerIs(5);
    PowerIs(13);
  }

  lemma OneMore(p: nat, m: nat, t: nat)
    ensures p * (m + (t + 1)) == p * (m + t) + p
  {
  }

  // ----- Reading an item -----

  /** The next item in any codes, for any bits: a symbol below 256 is a byte, 256 the end, and every other one a
  reference, of which the extra bits come before and after the distance symbol. */
  lemma NextItemIs(c: Codes, r: Stream)
    requires c.Valid()
    ensures var z := Decoded(c.lengths, r.val);
            if z < 0 then NextItem(c, r) == Wrong
            else if z < 256 then NextItem(c, r) == Byte(z, r.After(c.lengths[z]))
            else if z == 256 then NextItem(c, r) == End(r.After(c.lengths[z]))
            else NextItem(c, r) == ReferenceItem(c, z - 257, r.After(c.lengths[z]))
  {
    var z := Decoded(c.lengths, r.val);
    if z > 256 {
      ReferenceIs(c, z - 257, r.After(c.lengths[z]));
    }
  }

  ghost function ReferenceItem(c: Codes, j: nat, a: Stream): Item
    requires c.Valid()
  {
    var b := a.After(LengthBits(j));
    var k := Decoded(c.distances, b.val);
    if k < 0 then Wrong else
      var d := b.After(c.distances[k]);
      Back(LengthStart(j) + a.val % Pow2(LengthBits(j)), DistanceStart(k) + d.val % Pow2(DistanceBits(k)),
           d.After(DistanceBits(k)))
  }

  lemma ReferenceIs(c: Codes, j: nat, a: Stream)
    requires c.Valid() && j < 31
    ensures BlockFormat.Reference(c, j, a) == ReferenceItem(c, j, a)
  {
    LengthBitsAre(j);
    LengthStartsAre(j);
    LowIsRemainder(a.val, LengthBits(j), Pow2(LengthBits(j)));
    var b := a.After(LengthBits(j));
    DistanceIs(c, LengthStart(j) + a.val % Pow2(LengthBits(j)), b);
  }

  lemma DistanceIs(c: Codes, length: nat, b: Stream)
    requires c.Valid()
    ensures var k := Decoded(c.distances, b.val);
            if k < 0 then Distance(c, length, b) == Wrong else
              var d := b.After(c.distances[k]);
              Distance(c, length, b)
              == Back(length, DistanceStart(k) + d.val % Pow2(DistanceBits(k)), d.After(DistanceBits(k)))
  {
    var k := Decoded(c.distances, b.val);
    if k >= 0 {
      DistanceBitsAre(k);
      DistanceStartsAre(k);
      var d := b.After(c.distances[k]);
      LowIsRemainder(d.val, DistanceBits(k), Pow2(DistanceBits(k)));
    }
  }

  // ----- Writing a match -----

  /** The bits of a match: the length's symbol, what the length is above the least of its symbol, the distance's
  symbol in five bits, highest first, and what the distance is above its least. */
  ghost predicate IsMatchBits(c: Code, length: nat, distance: nat, j: nat, k: nat) {
    && j < 29 && k < 30 && (j == 28 <==> length == 258)
    && LengthStart(j) <= length < LengthStart(j) + Pow2(LengthBits(j))
    && DistanceStart(k) <= distance < DistanceStart(k) + Pow2(DistanceBits(k))
    && c == Cat(Cat(Cat(SymbolCode(257 + j), Code(length - LengthStart(j), LengthBits(j))), Code(Rev(k, 5), 5)),
                Code(distance - DistanceStart(k), DistanceBits(k)))
  }

  lemma MatchBitsAre(length: nat, distance: nat, c: Code)
    requires IsTokenCode(Match(length, distance), c)
    ensures 3 <= length <= 258 && 1 <= distance <= 32767
    ensures exists j, k :: IsMatchBits(c, length, distance, j, k)
  {
    var j, k :| InSlot(LENGTH_LIMITS, j, length) && InSlot(DISTANCE_LIMITS, k, distance)
                && c == MatchCode(j, length, k, distance);
    LengthFits(j, length);
    DistanceFits(k, distance);
    MatchBitsFor(c, length, distance, j, k, ExtraCode(LENGTH_LIMITS, LENGTH_EXTRA, j, length),
                 ExtraCode(DISTANCE_LIMITS, DISTANCE_EXTRA, k, distance));
  }

  lemma MatchBitsFor(c: Code, length: nat, distance: nat, j: nat, k: nat, a: Code, b: Code)
    requires j < 29 && k < 30 && (j == 28 <==> length == 258)
    requires LengthStart(j) <= length < LengthStart(j) + Pow2(LengthBits(j))
    requires DistanceStart(k) <= distance < DistanceStart(k) + Pow2(DistanceBits(k))
    requires a == Code(length - LengthStart(j), LengthBits(j))
    requires b == Code(distance - DistanceStart(k), DistanceBits(k))
    requires c == Cat(Cat(Cat(SymbolCode(257 + j), a), Code(Rev(k, 5), 5)), b)
    ensures IsMatchBits(c, length, distance, j, k)
  {
  }

  lemma LengthFits(j: nat, length: nat)
    requires InSlot(LENGTH_LIMITS, j, length)
    ensures j < 29 && 3 <= length <= 258 && (j == 28 <==> length == 258)
    ensures LENGTH_LIMITS[j] == LengthStart(j) <= length < LengthStart(j) + Pow2(LengthBits(j))
    ensures LENGTH_EXTRA[j] == LengthBits(j)
  {
    LengthBitsAre(j);
    LengthStartsAre(j);
    LengthsReach(j);
    LengthEnds(j);
  }

  lemma LengthEnds(j: nat)
    requires j < 29
    ensures LENGTH_LIMITS[j] >= 3 && LENGTH_LIMITS[28] == 258
    ensures j < 28 ==> LENGTH_LIMITS[j + 1] <= 258
    ensures j == 28 ==> LENGTH_LIMITS[j + 1] == 259
  {
  }

  lemma DistanceFits(k: nat, distance: nat)
    requires InSlot(DISTANCE_LIMITS, k, distance)
    ensures k < 30 && 1 <= distance <= 32767
    ensures DISTANCE_LIMITS[k] == DistanceStart(k) <= distance < DistanceStart(k) + Pow2(DistanceBits(k))
    ensures DISTANCE_EXTRA[k] == DistanceBits(k)
  {
    DistanceBitsAre(k);
    DistanceStartsAre(k);
    DistancesReach(k);
    DistanceEnds(k);
  }

  lemma DistanceEnds(k: nat)
    requires k < 30
    ensures DISTANCE_LIMITS[k] >= 1 && DISTANCE_LIMITS[k + 1] <= 32768
  {
  }

  // ----- Heads of blocks -----

  /** The order of the lengths of the codes for lengths: first the three repetitions and zero, then outwards from
  eight. */
  lemma OrderIs(i: nat)
    requires i < 19
    ensures ORDER[i] == if i < 3 then 16 + i
                        else if i == 3 then 0
                        else if i % 2 == 0 then 8 + (i - 4) / 2
                        else 8 - (i - 3) / 2
  {
  }

  /** The next n bits and what follows them are remainder and quotient. */
  lemma FieldIs(r: Stream, n: nat, p: nat)
    requires p == Pow2(n)
    ensures r.Next(n) == r.val % p && r.After(n) == Stream(r.val / p, r.at + n)
  {
    LowIsRemainder(r.val, n, p);
    DropIsQuotient(r.val, n, p);
  }

  /** Three bits to the size of each code for lengths. */
  lemma SizeIs(r: Stream, i: nat, n: nat, part: seq<nat>)
    requires i < n <= 19 && |part| == 19 && IsLengths(part)
    ensures Sizes(r, i, n, part) == Sizes(Stream(r.val / 8, r.at + 3), i + 1, n, part[ORDER[i] := r.val % 8])
  {
    assert Pow2(3) == 8;
    FieldIs(r, 3, 8);
  }

  /** The three counts at the start take fourteen bits. */
  lemma CountsAre(r: Stream)
    ensures CountsOf(r)
         == Counts(257 + r.val % 32, 1 + r.val / 32 % 32, 4 + r.val / 32 / 32 % 16,
                   Stream(r.val / 32 / 32 / 16, r.at + 14))
  {
    assert Pow2(5) == 32 && Pow2(4) == 16;
    FieldIs(r, 5, 32);
    FieldIs(r.After(5), 5, 32);
    FieldIs(r.After(5).After(5), 4, 16);
  }

  /** The lengths that are read are those of the symbols and then, in the same list, those of the distances. */
  ghost predicate AreLists(sized: Sized, hlit: nat, hdist: nat, t: Tables)
    requires |sized.sizes| == 19 && IsLengths(sized.sizes)
  {
    && t.Tables? && |t.codes.lengths| == hlit && |t.codes.distances| == hdist
    && ReadLengths(sized.sizes, sized.rest, [], hlit + hdist)
       == LengthList(t.codes.lengths + t.codes.distances, t.rest)
  }

  lemma ListsJoin(sized: Sized, hlit: nat, hdist: nat)
    requires |sized.sizes| == 19 && IsLengths(sized.sizes) && hlit <= 288 && hdist <= 32
    requires TablesFrom(sized, hlit, hdist).Tables?
    ensures AreLists(sized, hlit, hdist, TablesFrom(sized, hlit, hdist))
  {
    var list := ReadLengths(sized.sizes, sized.rest, [], hlit + hdist);
    assert list.lens[..hlit] + list.lens[hlit..] == list.lens;
  }

  lemma ListsAre(r: Stream)
    requires ReadTables(r).Tables?
    ensures var c := CountsOf(r);
            AreLists(Sizes(c.rest, 0, c.hclen, ZeroSizes()), c.hlit, c.hdist, ReadTables(r))
  {
    ListsJoin(Sizes(CountsOf(r).rest, 0, CountsOf(r).hclen, ZeroSizes()), CountsOf(r).hlit, CountsOf(r).hdist);
  }

  /** The three repetitions: the last length 3 to 6 times, or zeros 3 to 10 or 11 to 138 times. */
  lemma RepeatsAre(z: nat, lens: seq<nat>, r: Stream)
    requires z < 19 && (z == 16 ==> lens != [])
    ensures Repeats(z, lens, r)
         == if z < 16 then LengthRun(z, 1, r)
            else if z == 16 then LengthRun(lens[|lens| - 1], 3 + r.val % 4, Stream(r.val / 4, r.at + 2))
            else if z == 17 then LengthRun(0, 3 + r.val % 8, Stream(r.val / 8, r.at + 3))
            else LengthRun(0, 11 + r.val % 128, Stream(r.val / 128, r.at + 7))
  {
    assert Pow2(2) == 4 && Pow2(3) == 8 && Pow2(7) == 128;
    FieldIs(r, 2, 4);
    FieldIs(r, 3, 8);
    FieldIs(r, 7, 128);
  }

  /** A block begins with a bit that marks the last one, and two bits of type. */
  lemma FirstBlockIs(z: seq<byte>, p: nat, out: seq<byte>)
    ensures var v := Drop(Val(z), p);
            var r := Stream(v / 2 / 4, p + 3);
            var block := if v / 2 % 4 == 0 then Stored(z, r, out)
                         else if v / 2 % 4 == 1 then FixedBlock(r, out)
                         else if v / 2 % 4 == 2 then OwnBlock(r, out)
                         else Bad(BadType);
            Blocks(z, p, out) == if block.Done? && v % 2 == 0 then Blocks(z, block.rest.at, block.out) else block
  {
    var r := StreamAt(z, p);
    assert Pow2(1) == 2 && Pow2(2) == 4;
    FieldIs(r, 1, 2);
    FieldIs(r.After(1), 2, 4);
    var kind, rest := r.After(1).Next(2), r.After(1).After(2);
    BlocksUnfold(z, p, out, r.Next(1), kind, Body(z, kind, rest, out));
  }

  /** A stored block is complete exactly when its length stands before it twice, the low byte first and the second
  time with all bits inverted, and all its bytes are there. */
  lemma StoredIs(z: seq<byte>, r: Stream, out: seq<byte>)
    ensures var q := (r.at + 7) / 8;
            && (Stored(z, r, out).Done? <==>
                  && q + 4 <= |z| && z[q] as int + z[q + 2] == 255 && z[q + 1] as int + z[q + 3] == 255
                  && q + 4 + z[q] + z[q + 1] as int * 256 <= |z|)
            && (Stored(z, r, out).Done? ==>
                  var end := q + 4 + z[q] + z[q + 1] as int * 256;
                  Stored(z, r, out) == Done(out + z[q + 4..end], StreamAt(z, 8 * end)))
  {
    if Stored(z, r, out).Done? {
      StoredHeader(z, r, out);
    }
  }

  // ----- The header of the stream -----

  /** The headers that are accepted: method 8, no dictionary, and check bits that make the two bytes a multiple of 31,
  whatever the window (the upper half of the first byte) and the level (the top of the second). */
  lemma HeadersAre(cmf: byte, flg: byte)
    ensures GoodHeader(cmf, flg) <==>
              cmf % 16 == 8 && flg / 32 % 2 == 0 && (2 + 4 * (cmf / 16) + 2 * (flg / 64) + flg % 32) % 31 == 0
  {
    var w, l, check := cmf / 16, flg / 64, flg % 32;
    if cmf % 16 == 8 && flg / 32 % 2 == 0 {
      assert cmf == 16 * w + 8 && flg == 64 * l + check;
      SameRemainder(cmf * 256 + flg, 132 * w + 66 + 2 * l, 2 + 4 * w + 2 * l + check);
    }
  }

  lemma SameRemainder(a: nat, k: nat, b: nat)
    requires a == 31 * k + b
    ensures a % 31 == b % 31
  {
    Remainder(a, 31, k + b / 31, b % 31);
  }

  /** With a window of 32K there are four, one for each level. */
  lemma HeadersOf32K(flg: byte)
    ensures GoodHeader(0x78, flg) <==> flg == 0x01 || flg == 0x5e || flg == 0x9c || flg == 0xda
  {
  }
}
