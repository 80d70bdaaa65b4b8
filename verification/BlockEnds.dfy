/** Which blocks end. Past the end of the input the reader supplies zero bits; what these stand for in a block's codes
decides whether a block can go on for ever. */
module BlockEnds {
  import opened Bits
  import opened Canonical
  import opened FixedCode
  import opened FixedTables
  import opened BlockFormat
  import opened BlockRuns
  import opened CodeWords

  /** Zeros stand for nothing, for the end mark, or for a length whose distance is missing or, when there is something
  to copy, has no meaning. */
  predicate Stops(c: Codes)
    requires c.Valid()
  {
    var z, d := ZeroSymbol(c.lengths), ZeroSymbol(c.distances);
    || z < 0 || z == END_OF_BLOCK
    || (z > END_OF_BLOCK && (d < 0 || (d >= 30 && READ_LENGTH_BASE[z - 257] > 0)))
  }

  /** After this output zeros stand for a byte, or for a reference that can be copied. */
  predicate ZerosGoOn(c: Codes, out: seq<byte>)
    requires c.Valid()
  {
    var z, d := ZeroSymbol(c.lengths), ZeroSymbol(c.distances);
    && !Stops(c) && (z > END_OF_BLOCK ==> READ_DISTANCE_BASE[d] <= |out|)
  }

  /** How much zeros add. */
  function ZerosAdd(c: Codes): nat
    requires c.Valid() && !Stops(c)
  {
    var z := ZeroSymbol(c.lengths);
    if z < END_OF_BLOCK then 1 else READ_LENGTH_BASE[z - 257]
  }

  /** The item that zeros stand for. */
  lemma ZeroItem(c: Codes, r: Stream)
    requires c.Valid() && r.val == 0
    ensures var z, d, item := ZeroSymbol(c.lengths), ZeroSymbol(c.distances), NextItem(c, r);
            && (item.Wrong? <==> z < 0 || (z > END_OF_BLOCK && d < 0)) && (item.End? <==> z == END_OF_BLOCK)
            && (item.Byte? <==> 0 <= z < END_OF_BLOCK)
            && (item.Back? ==> item.length == READ_LENGTH_BASE[z - 257] && item.distance == READ_DISTANCE_BASE[d])
            && (item.Back? && !Stops(c) ==> item.length == ZerosAdd(c))
  {
    var z := ZeroSymbol(c.lengths);
    ZerosDecode(c.lengths);
    ZerosDecode(c.distances);
    if z >= 0 {
      ZerosAfter(r, c.lengths[z]);
      if z > END_OF_BLOCK {
        ZeroReference(c, z - 257, r.After(c.lengths[z]));
      }
    }
  }

  lemma ZerosAfter(r: Stream, n: nat)
    requires r.val == 0
    ensures r.After(n).val == 0 && r.Next(n) == 0
  {
    ZeroBits(n);
    LowSmall(0, n);
  }

  lemma ZeroReference(c: Codes, z: nat, r: Stream)
    requires c.Valid() && z < 31 && r.val == 0 && Decoded(c.distances, 0) == ZeroSymbol(c.distances)
    ensures var d, item := ZeroSymbol(c.distances), Reference(c, z, r);
            if d < 0 then item.Wrong?
            else item.Back? && item.length == READ_LENGTH_BASE[z] && item.distance == READ_DISTANCE_BASE[d]
  {
    var d, more := ZeroSymbol(c.distances), r.After(READ_LENGTH_EXTRA[z]);
    ZerosAfter(r, READ_LENGTH_EXTRA[z]);
    if d >= 0 {
      ZerosAfter(more, c.distances[d]);
      ZerosAfter(more.After(c.distances[d]), READ_DISTANCE_EXTRA[d]);
    }
  }

  /** A reference can be copied when it stays inside the output and has a distance or nothing to copy. */
  lemma BackGrows(item: Item, out: seq<byte>)
    requires item.Back?
    ensures Grow(item, out).Grown? <==> item.distance <= |out| && (item.length == 0 || item.distance > 0)
    ensures Grow(item, out).Grown? ==> |Grow(item, out).out| == |out| + item.length
    ensures Grow(item, out).Grown? && item.length == 0 ==> Grow(item, out).out == out
  {
  }

  lemma BackTurn(c: Codes, r: Stream, out: seq<byte>, item: Item)
    requires c.Valid() && item == NextItem(c, r) && item.Back?
    ensures Turn(c, r, out).Going? <==> item.distance <= |out| && (item.length == 0 || item.distance > 0)
    ensures Turn(c, r, out).Going? ==> |Turn(c, r, out).out| == |out| + item.length
    ensures Turn(c, r, out).Going? && item.length == 0 ==> Turn(c, r, out).out == out
  {
    BackGrows(item, out);
  }

  lemma ZeroDistances(c: Codes, out: seq<byte>)
    requires c.Valid() && ZeroSymbol(c.lengths) > END_OF_BLOCK && ZeroSymbol(c.distances) >= 0
    ensures var length, distance := READ_LENGTH_BASE[ZeroSymbol(c.lengths) - 257],
                                    READ_DISTANCE_BASE[ZeroSymbol(c.distances)];
            ZerosGoOn(c, out) <==> distance <= |out| && (length == 0 || distance > 0)
  {
    ReadBases(ZeroSymbol(c.distances));
  }

  /** A turn of the loop over zeros goes on exactly when ZerosGoOn holds, and adds what they add. */
  lemma ZeroTurn(c: Codes, r: Stream, out: seq<byte>)
    requires c.Valid() && r.val == 0
    ensures Turn(c, r, out).Going? <==> ZerosGoOn(c, out)
    ensures ZerosGoOn(c, out) ==> |Turn(c, r, out).out| == |out| + ZerosAdd(c)
    ensures ZerosGoOn(c, out) && ZerosAdd(c) == 0 ==> Turn(c, r, out).out == out
  {
    var item := NextItem(c, r);
    ZeroItem(c, r);
    if item.Back? {
      BackTurn(c, r, out, item);
      ZeroDistances(c, out);
    }
  }

  /** When all bits are used up, a block goes on for ever exactly when zeros go on after its output. */
  lemma ZerosNeverEnd(c: Codes, at: nat, out: seq<byte>)
    requires c.Valid()
    ensures Block(c, Stream(0, at), out) == Bad(NeverEnds) <==> ZerosGoOn(c, out)
  {
    ZeroTurn(c, Stream(0, at), out);
    TurnOfBlock(c, Stream(0, at), out, Turn(c, Stream(0, at), out));
  }

  lemma {:induction false} StopsAtZeros(c: Codes, r: Stream, out: seq<byte>)
    requires c.Valid() && Stops(c)
    ensures Block(c, r, out) != Bad(NeverEnds)
    decreases r.val
  {
    var next := Turn(c, r, out);
    TurnOfBlock(c, r, out, next);
    if r.val == 0 {
      ZeroTurn(c, r, out);
    } else if next.Going? {
      StopsAtZeros(c, next.r, next.out);
    }
  }

  /** Every block in these codes ends if and only if zeros stop it. */
  lemma EveryBlockEnds(c: Codes)
    requires c.Valid()
    ensures (forall r: Stream, out: seq<byte> :: Block(c, r, out) != Bad(NeverEnds)) <==> Stops(c)
  {
    if Stops(c) {
      forall r: Stream, out: seq<byte> ensures Block(c, r, out) != Bad(NeverEnds) {
        StopsAtZeros(c, r, out);
      }
    } else {
      var d := ZeroSymbol(c.distances);
      var out: seq<byte> := seq(if d < 0 then 0 else READ_DISTANCE_BASE[d], _ => 0);
      ZerosNeverEnd(c, 0, out);
    }
  }

  /** A fixed block always ends: seven zero bits are its end mark. */
  lemma FixedBlockEnds(r: Stream, out: seq<byte>)
    ensures FixedBlock(r, out) != Bad(NeverEnds)
  {
    FixedLengthsAre();
    SymbolDecodes(END_OF_BLOCK, 0);
    ZeroBits(SymbolCode(END_OF_BLOCK).len);
    ZerosDecode(FixedLengths());
    StopsAtZeros(FixedCodes(), r, out);
  }
}
