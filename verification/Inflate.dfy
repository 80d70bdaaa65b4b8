/** The decompressor: a 32-bit bit buffer refilled a byte at a time, and the decoding of blocks of every type. The
methods are proved against functions of the bits still to come. */
module Inflate {
  import opened Bits
  import opened ByteReader
  import opened Canonical
  import opened Huffman
  import opened Lz77
  import opened FixedCode
  import opened FixedTables
  import opened BlockFormat

  datatype Status = Ok | Failed(why: Error)

  class Zbuf {
    const zbuffer: seq<byte>
    var pos: nat
    var numBits: nat
    var codeBuffer: nat
    var zout: seq<byte>
    const lengths: Table
    const distances: Table
    ghost var at: nat
    ghost var beyond: nat

    constructor (z: seq<byte>)
      ensures Valid() && zbuffer == z && at == numBits == 0 && zout == [] && TablesShaped()
      ensures fresh(TableArrays())
    {
      zbuffer, pos, numBits, codeBuffer, zout := z, 0, 0, 0, [];
      at, beyond := 0, 0;
      lengths := new Table();
      distances := new Table();
      new;
      assert zbuffer[0..] == zbuffer;
    }

    /** The buffered bits fit their count; they and the bytes from pos on are what follows the first at bits,
    of which the last beyond bytes were zeros past the end. */
    ghost predicate Valid()
      reads this
    {
      Buffered(zbuffer, pos, beyond, codeBuffer, numBits, at) && numBits <= 32
    }

    ghost predicate TablesShaped() {
      lengths.Shaped() && distances.Shaped() && lengths.Arrays() !! distances.Arrays()
    }

    ghost function TableArrays(): set<object> {
      lengths.Arrays() + distances.Arrays()
    }

    /** Both tables are those of the codes. */
    ghost predicate HasBuilt(c: Codes)
      reads lengths.fast, lengths.firstCode, lengths.maxCode
      reads lengths.firstSymbol, lengths.size, lengths.value
      reads distances.fast, distances.firstCode, distances.maxCode
      reads distances.firstSymbol, distances.size, distances.value
    {
      c.Valid() && lengths.Built(c.lengths) && distances.Built(c.distances)
    }

    /** All bits still to come. */
    ghost function Bits(): Stream
      reads this`at
    {
      StreamAt(zbuffer, at)
    }

    /** The next byte; zero past the end. */
    method Get8() returns (b: byte)
      requires pos <= |zbuffer| && (beyond > 0 ==> pos == |zbuffer|)
      modifies this`pos, this`beyond
      ensures b == At(zbuffer, old(pos)) && pos == Skip(zbuffer, old(pos), 1)
      ensures beyond == old(beyond) + if old(pos) < |zbuffer| then 0 else 1
    {
      if pos >= |zbuffer| {
        beyond := beyond + 1;
        return 0;
      }
      b := zbuffer[pos];
      pos := pos + 1;
    }

    /** Refills the buffer to more than 24 bits without changing what is to come. */
    method FillBits()
      requires Valid() && numBits <= 24
      modifies this`pos, this`numBits, this`codeBuffer, this`beyond
      ensures Valid() && numBits > 24
    {
      var first := true;
      while first || numBits <= 24
        invariant Valid()
        invariant first ==> numBits <= 24
        invariant !first ==> numBits >= 8
        decreases 32 - numBits
      {
        first := false;
        FillByte();
      }
    }

    method FillByte()
      requires Valid() && numBits <= 24
      modifies this`pos, this`numBits, this`codeBuffer, this`beyond
      ensures Valid() && numBits == old(numBits) + 8
    {
      Refilled(zbuffer, pos, beyond, codeBuffer, numBits, at);
      var b := Get8();
      codeBuffer := Join(codeBuffer, numBits, b);
      numBits := numBits + 8;
    }

    /** Removes n buffered bits. */
    method Consume(n: nat) returns (k: nat)
      requires Valid() && n <= numBits
      modifies this`numBits, this`codeBuffer, this`at
      ensures Valid() && k == old(Bits()).Next(n) && Bits() == old(Bits()).After(n) && numBits == old(numBits) - n
    {
      Consumed(zbuffer, pos, beyond, codeBuffer, numBits, at, n);
      k := Low(codeBuffer, n);
      codeBuffer := Drop(codeBuffer, n);
      numBits := numBits - n;
      at := at + n;
    }

    method Receive(n: nat) returns (k: nat)
      requires Valid() && n <= 24
      modifies this`pos, this`numBits, this`codeBuffer, this`at, this`beyond
      ensures Valid() && k == old(Bits()).Next(n) && Bits() == old(Bits()).After(n)
      ensures n <= old(numBits) ==> numBits == old(numBits) - n
    {
      if numBits < n {
        FillBits();
      }
      k := Consume(n);
    }

    /** The symbol the stream starts with, removed from it; -1 when it starts with none. */
    method Decode(table: Table, ghost lens: seq<nat>) returns (symbol: int)
      requires Valid() && table.Built(lens)
      modifies this`pos, this`numBits, this`codeBuffer, this`at, this`beyond
      ensures Valid() && symbol == Decoded(lens, old(Bits()).val)
      ensures Bits() == if symbol < 0 then old(Bits()) else old(Bits()).After(lens[symbol])
    {
      if numBits < 16 {
        FillBits();
      }
      ghost var r := Bits().val;
      BufferSplit(codeBuffer, 16, numBits, Val(zbuffer[pos..]));
      LowLow(codeBuffer, 16, 16);
      DecodedLow(lens, codeBuffer, r);
      var s;
      symbol, s := table.Lookup(lens, codeBuffer);
      if symbol >= 0 {
        var _ := Consume(s);
      }
    }

    // ----- Items -----

    /** Appends length bytes from distance back; a run of one byte is copied without following the source. */
    method CopyBack(distance: nat, length: nat)
      requires 1 <= distance <= |zout|
      modifies this`zout
      ensures zout == Copy(old(zout), distance, length)
    {
      var p, len := |zout| - distance, length;
      if distance == 1 {
        var v := zout[p];
        while len != 0
          invariant |zout| >= 1 && zout[|zout| - 1] == v
          invariant Copy(zout, 1, len) == Copy(old(zout), 1, length)
        {
          zout := zout + [v];
          len := len - 1;
        }
      } else {
        while len != 0
          invariant p == |zout| - distance && distance <= |zout|
          invariant Copy(zout, distance, len) == Copy(old(zout), distance, length)
        {
          zout := zout + [zout[p]];
          p := p + 1;
          len := len - 1;
        }
      }
    }

    /** The distance of a back reference; -1 for a bad code. */
    method ReadDistance(ghost c: Codes, ghost length: nat) returns (distance: int)
      requires Valid() && HasBuilt(c)
      modifies this`pos, this`numBits, this`codeBuffer, this`at, this`beyond
      ensures Valid() && distance >= -1
      ensures Distance(c, length, old(Bits())) == if distance < 0 then Wrong else Back(length, distance, Bits())
    {
      var d := Decode(distances, c.distances);
      if d < 0 { return -1; }
      distance := READ_DISTANCE_BASE[d];
      ReadExtraSmall(0, d);
      NoBits(Bits());
      if READ_DISTANCE_EXTRA[d] != 0 {
        var more := Receive(READ_DISTANCE_EXTRA[d]);
        distance := distance + more;
      }
    }

    /** The length of a back reference whose symbol has been read. */
    method ReadLength(z: nat) returns (length: nat)
      requires Valid() && z < 31
      modifies this`pos, this`numBits, this`codeBuffer, this`at, this`beyond
      ensures Valid()
      ensures length == READ_LENGTH_BASE[z] + old(Bits()).Next(READ_LENGTH_EXTRA[z])
      ensures Bits() == old(Bits()).After(READ_LENGTH_EXTRA[z])
    {
      length := READ_LENGTH_BASE[z];
      ReadExtraSmall(z, 0);
      NoBits(Bits());
      if READ_LENGTH_EXTRA[z] != 0 {
        var more := Receive(READ_LENGTH_EXTRA[z]);
        length := length + more;
      }
    }

    /** The next item of a block. */
    method ReadItem(ghost c: Codes) returns (x: Read)
      requires Valid() && HasBuilt(c)
      modifies this`pos, this`numBits, this`codeBuffer, this`at, this`beyond
      ensures Valid() && NextItem(c, old(Bits())) == WithRest(x, Bits())
    {
      var z := Decode(lengths, c.lengths);
      x := ReadRest(c, z);
    }

    /** The rest of the item that a symbol begins. */
    method ReadRest(ghost c: Codes, z: int) returns (x: Read)
      requires Valid() && HasBuilt(c) && z < 288
      modifies this`pos, this`numBits, this`codeBuffer, this`at, this`beyond
      ensures Valid() && ItemFor(c, z, old(Bits())) == WithRest(x, Bits())
    {
      if z < 256 {
        x := if z < 0 then ReadWrong else ReadByte(z);
      } else if z == END_OF_BLOCK {
        x := ReadEnd;
      } else {
        x := ReadReference(c, z - 257);
      }
    }

    /** The rest of a back reference whose length symbol has been read. */
    method ReadReference(ghost c: Codes, z: nat) returns (x: Read)
      requires Valid() && z < 31 && HasBuilt(c)
      modifies this`pos, this`numBits, this`codeBuffer, this`at, this`beyond
      ensures Valid() && Reference(c, z, old(Bits())) == WithRest(x, Bits())
    {
      var length := ReadLength(z);
      var distance := ReadDistance(c, length);
      x := if distance < 0 then ReadWrong else ReadBack(length, distance);
    }

    /** What an item that has been read does to the output; false at the end of the block or at an error. */
    method Perform(x: Read) returns (more: bool, result: Status)
      modifies this`zout
      ensures x.ReadWrong? ==> !more && result == Failed(BadCode)
      ensures x.ReadEnd? ==> !more && result == Ok && zout == old(zout)
      ensures (more ==> result == Ok) && (!more && !x.ReadEnd? ==> result.Failed?)
      ensures x.ReadByte? || x.ReadBack? ==>
                Grow(WithRest(x, Bits()), old(zout)) == if more then Grown(zout) else Refused(result.why)
    {
      match x {
        case ReadWrong => return false, Failed(BadCode);
        case ReadEnd => return false, Ok;
        case ReadByte(b) => zout := zout + [b];
        case ReadBack(length, distance) =>
          if |zout| < distance { return false, Failed(BadDistance); }
          if length != 0 {
            if distance == 0 { return false, Failed(NoDistance); }
            CopyBack(distance, length);
          }
      }
      more, result := true, Ok;
    }

    // ----- Blocks -----

    /** Whether no bit is set in what is still to come. A block that has not ended by then never does; the program
    would go on for ever. */
    method NothingSet() returns (nothing: bool)
      requires Valid()
      ensures nothing <==> Bits().val == 0
    {
      JoinIsZero(codeBuffer, numBits, Val(zbuffer[pos..]));
      ValIsZero(zbuffer[pos..]);
      nothing := codeBuffer == 0;
      var i := pos;
      while nothing && i < |zbuffer|
        invariant pos <= i <= |zbuffer|
        invariant nothing <==> codeBuffer == 0 && forall k :: pos <= k < i ==> zbuffer[k] == 0
      {
        nothing := zbuffer[i] == 0;
        i := i + 1;
      }
    }

    /** One round of the block loop. */
    method ParseItem(ghost c: Codes) returns (more: bool, result: Status)
      requires Valid() && HasBuilt(c)
      modifies this`pos, this`numBits, this`codeBuffer, this`at, this`beyond, this`zout
      ensures Valid()
      ensures Block(c, old(Bits()), old(zout)) == if more then Block(c, Bits(), zout) else Outcome(result)
      ensures more ==> Bits().val < old(Bits()).val
    {
      ghost var r, out := Bits(), zout;
      var nothing := NothingSet();
      ItemProgress(c, r);
      var x := ReadItem(c);
      BlockUnfolds(c, r, zout, x, Bits());
      more, result := Perform(x);
      if more && nothing {
        more, result := false, Failed(NeverEnds);
      }
    }

    /** One block, up to its end marker or the first error. */
    method ParseHuffmanBlock(ghost c: Codes) returns (result: Status)
      requires Valid() && HasBuilt(c)
      modifies this`pos, this`numBits, this`codeBuffer, this`at, this`beyond, this`zout
      ensures Valid() && Block(c, old(Bits()), old(zout)) == Outcome(result)
    {
      var more := true;
      result := Ok;
      while more
        invariant Valid() && HasBuilt(c)
        invariant Block(c, old(Bits()), old(zout)) == if more then Block(c, Bits(), zout) else Outcome(result)
        decreases more, Bits().val
      {
        more, result := ParseItem(c);
      }
    }

    /** What the function of the stream says after the method has returned. */
    ghost function Outcome(s: Status): Inflated
      reads this`at, this`zout
    {
      match s
      case Ok => Done(zout, Bits())
      case Failed(why) => Bad(why)
    }

    // ----- Stored blocks -----

    /** A whole byte, when no bits are buffered. */
    method NextWhole() returns (b: byte)
      requires Valid() && numBits == 0
      modifies this`pos, this`at, this`beyond
      ensures Valid() && at == old(at) + 8 && b == At(zbuffer, old(at) / 8)
    {
      WholeByte(zbuffer, pos, beyond, codeBuffer, at);
      b := Get8();
      at := at + 8;
    }

    /** A stored block: buffered bits up to a byte are dropped, buffered bytes are the first of the header. */
    method ParseStored() returns (result: Status)
      requires Valid()
      modifies this`pos, this`numBits, this`codeBuffer, this`at, this`beyond, this`zout
      ensures Valid() && Stored(zbuffer, old(Bits()), old(zout)) == Outcome(result)
    {
      ghost var r := Bits();
      ghost var bytes := ToByte();
      var len, nlen := ReadStoredHeader(NextByte(r), bytes);
      StoredUnfold(zbuffer, r, zout, len, nlen, pos);
      if nlen != 0xffff - len { return Failed(BadStored); }
      result := CopyStored(len);
    }

    method CopyStored(len: nat) returns (result: Status)
      requires Valid() && numBits == 0
      modifies this`pos, this`at, this`beyond, this`zout
      ensures Valid()
      ensures Outcome(result) == if old(pos) + len > |zbuffer| then Bad(PastEnd)
                                 else Done(old(zout) + zbuffer[old(pos)..old(pos) + len],
                                           StreamAt(zbuffer, 8 * (old(pos) + len)))
    {
      if pos + len > |zbuffer| { return Failed(PastEnd); }
      zout := zout + zbuffer[pos..pos + len];
      pos := pos + len;
      at, beyond := 8 * pos, 0;
      NothingBuffered(zbuffer, pos, codeBuffer);
      result := Ok;
    }

    /** Drops the bits up to the next whole byte. */
    method ToByte() returns (ghost bytes: nat)
      requires Valid()
      modifies this`pos, this`numBits, this`codeBuffer, this`at, this`beyond
      ensures Valid() && numBits == 8 * bytes && bytes <= 4 && at == 8 * NextByte(old(Bits()))
    {
      var n := numBits % 8;
      bytes := WholeBytes(at, numBits, n, pos + beyond);
      if n != 0 {
        var _ := Receive(n);
      }
    }

    /** The length and its complement. */
    method ReadStoredHeader(ghost q: nat, ghost bytes: nat) returns (len: nat, nlen: nat)
      requires Valid() && numBits == 8 * bytes && bytes <= 4 && at == 8 * q
      modifies this`pos, this`numBits, this`codeBuffer, this`at, this`beyond
      ensures Valid() && numBits == 0 && pos == Skip(zbuffer, q, 4)
      ensures len == Word16(zbuffer, q) && nlen == Word16(zbuffer, q + 2)
    {
      var header := new byte[4];
      ReadHeaderBytes(header, q, bytes);
      len := header[1] as int * 256 + header[0];
      nlen := header[3] as int * 256 + header[2];
    }

    method ReadHeaderBytes(header: array<byte>, ghost q: nat, ghost bytes: nat)
      requires Valid() && numBits == 8 * bytes && bytes <= 4 && at == 8 * q && header.Length == 4
      modifies this`pos, this`numBits, this`codeBuffer, this`at, this`beyond, header
      ensures Valid() && numBits == 0 && pos == Skip(zbuffer, q, 4)
      ensures HasBytes(header, q, 4)
    {
      var k := DrainHeader(header, q, bytes);
      ghost var here := q + k;
      while k < 4
        invariant Valid() && numBits == 0 && at == 8 * here && here == q + k && k <= 4 && HasBytes(header, q, k)
      {
        TakeByte(header, k, q, here);
        k, here := k + 1, here + 1;
      }
    }

    method TakeByte(header: array<byte>, k: nat, ghost q: nat, ghost here: nat)
      requires Valid() && numBits == 0 && header.Length == 4 && k < 4
      requires at == 8 * here && here == q + k && HasBytes(header, q, k)
      modifies this`pos, this`numBits, this`codeBuffer, this`at, this`beyond, header
      ensures Valid() && numBits == 0 && at == 8 * (here + 1) && HasBytes(header, q, k + 1)
    {
      var b := NextWhole();
      header[k] := b;
    }

    ghost predicate HasBytes(header: array<byte>, q: nat, k: nat)
      requires header.Length == 4 && k <= 4
      reads header
    {
      forall i :: 0 <= i < k ==> header[i] == At(zbuffer, q + i)
    }

    /** The buffered bytes are the first of the header. */
    method DrainHeader(header: array<byte>, ghost q: nat, ghost bytes: nat) returns (k: nat)
      requires Valid() && numBits == 8 * bytes && bytes <= 4 && at == 8 * q && header.Length == 4
      modifies this`numBits, this`codeBuffer, this`at, header
      ensures Valid() && numBits == 0 && at == 8 * (q + k) && k <= 4 && HasBytes(header, q, k)
    {
      k := 0;
      ghost var left, here := bytes, q;
      while numBits > 0
        invariant Valid() && numBits == 8 * left && k + left <= 4 && at == 8 * here && here == q + k
        invariant HasBytes(header, q, k)
        decreases numBits
      {
        DrainByte(header, k, q, left, here);
        k, left, here := k + 1, left - 1, here + 1;
      }
    }

    method DrainByte(header: array<byte>, k: nat, ghost q: nat, ghost left: nat, ghost here: nat)
      requires Valid() && numBits == 8 * left && 0 < left && header.Length == 4 && k < 4
      requires at == 8 * here && here == q + k && HasBytes(header, q, k)
      modifies this`numBits, this`codeBuffer, this`at, header
      ensures Valid() && numBits == 8 * (left - 1) && at == 8 * (here + 1) && HasBytes(header, q, k + 1)
    {
      NextIsByte(zbuffer, at, here);
      var b := Consume(8);
      header[k] := b;
    }

    // ----- Code lengths -----

    /** The lengths of the codes for code lengths. */
    method ReadSizes(hclen: nat) returns (sizes: array<nat>)
      requires Valid() && hclen <= 19
      modifies this`pos, this`numBits, this`codeBuffer, this`at, this`beyond
      ensures Valid() && sizes.Length == 19 && IsLengths(sizes[..]) && fresh(sizes)
      ensures Sizes(old(Bits()), 0, hclen, ZeroSizes()) == Sized(sizes[..], Bits())
    {
      sizes := new nat[19](_ => 0);
      assert sizes[..] == ZeroSizes();
      ghost var all := Sizes(Bits(), 0, hclen, ZeroSizes());
      var i: nat := 0;
      while i < hclen
        invariant i <= hclen && Valid() && IsLengths(sizes[..])
        invariant Sizes(Bits(), i, hclen, sizes[..]) == all
      {
        ghost var r, part := Bits(), sizes[..];
        var size := Receive(3);
        OrderFits(i);
        SizesUnfold(r, i, hclen, part, size, Bits());
        sizes[ORDER[i]] := size;
        i := i + 1;
      }
    }

    /** One code length, or a run of equal ones. */
    method ReadLengthRun(table: Table, ghost sizes: seq<nat>, lencodes: array<nat>, n: nat, total: nat)
      returns (ok: bool, n': nat)
      requires Valid() && table.Built(sizes) && |sizes| == 19 && n < total <= lencodes.Length
      requires AreLengths(lencodes[..n])
      modifies this`pos, this`numBits, this`codeBuffer, this`at, this`beyond, lencodes
      ensures Valid()
      ensures ok ==> n < n' <= total && AreLengths(lencodes[..n'])
      ensures ok ==>
                ReadLengths(sizes, old(Bits()), old(lencodes[..n]), total)
                == ReadLengths(sizes, Bits(), lencodes[..n'], total)
      ensures !ok ==> ReadLengths(sizes, old(Bits()), old(lencodes[..n]), total) == NoLengths
    {
      ghost var r, before := Bits(), lencodes[..n];
      var z := Decode(table, sizes);
      LengthsUnfold(sizes, r, before, total, z, Bits());
      n' := n;
      if z < 0 { return false, n'; }
      var fill, times;
      ok, fill, times := ReadRepeat(z, lencodes, n, total);
      if !ok { return; }
      n' := n + times;
      FillRun(lencodes, n, fill, times, n', before);
    }

    static method FillRun(lencodes: array<nat>, n: nat, fill: nat, times: nat, next: nat, ghost before: seq<nat>)
      requires n + times == next <= lencodes.Length && before == lencodes[..n]
      modifies lencodes
      ensures lencodes[..next] == before + Fill(fill, times)
    {
      forall i | n <= i < next { lencodes[i] := fill; }
    }

    /** What is to be stored, and how often. */
    method ReadRepeat(z: nat, lencodes: array<nat>, n: nat, total: nat) returns (ok: bool, fill: nat, times: nat)
      requires Valid() && z < 19 && n < total <= lencodes.Length && AreLengths(lencodes[..n])
      modifies this`pos, this`numBits, this`codeBuffer, this`at, this`beyond
      ensures Valid()
      ensures ok <==> !(z == 16 && n == 0) && Repeats(z, lencodes[..n], old(Bits())).times <= total - n
      ensures ok ==>
                Repeats(z, lencodes[..n], old(Bits())) == LengthRun(fill, times, Bits()) && 0 < times <= total - n
                && fill <= 15
    {
      fill, times := 0, 1;
      ok := true;
      if z < 16 {
        return ok, z, times;
      }
      if z == 16 {
        times := Receive(2);
        times := times + 3;
        if n == 0 { return false, fill, times; }
        fill := lencodes[n - 1];
        assert lencodes[..n][n - 1] == fill;
      } else if z == 17 {
        times := Receive(3);
        times := times + 3;
      } else {
        times := Receive(7);
        times := times + 11;
      }
      ok := times <= total - n;
    }

    method ReadCodeLengths(table: Table, ghost sizes: seq<nat>, total: nat) returns (ok: bool, lencodes: array<nat>)
      requires Valid() && table.Built(sizes) && |sizes| == 19 && total <= 320
      modifies this`pos, this`numBits, this`codeBuffer, this`at, this`beyond
      ensures Valid() && lencodes.Length >= total && fresh(lencodes)
      ensures ReadLengths(sizes, old(Bits()), [], total)
           == if ok then LengthList(lencodes[..total], Bits()) else NoLengths
    {
      lencodes := new nat[455];
      ghost var all := ReadLengths(sizes, Bits(), [], total);
      var n: nat := 0;
      ok := true;
      assert lencodes[..0] == [];
      while n < total
        invariant n <= total && Valid() && AreLengths(lencodes[..n])
        invariant ReadLengths(sizes, Bits(), lencodes[..n], total) == all
      {
        ok, n := ReadLengthRun(table, sizes, lencodes, n, total);
        if !ok { return; }
      }
    }

    /** The tables of a block that brings its own code lengths. */
    method ComputeHuffmanCodes() returns (result: Status, ghost c: Codes)
      requires Valid() && TablesShaped()
      modifies this`pos, this`numBits, this`codeBuffer, this`at, this`beyond
      modifies lengths.fast, lengths.firstCode, lengths.maxCode
      modifies lengths.firstSymbol, lengths.size, lengths.value
      modifies distances.fast, distances.firstCode, distances.maxCode
      modifies distances.firstSymbol, distances.size, distances.value
      ensures Valid()
      ensures ReadTables(old(Bits())) == if result.Ok? then Tables(c, Bits()) else NoTables(result.why)
      ensures result.Ok? ==> HasBuilt(c)
    {
      var hlit, hdist, hclen := ReadCounts();
      var sizes := ReadSizes(hclen);
      result, c := ReadCodes(sizes, hlit, hdist, Sized(sizes[..], Bits()));
    }

    method ReadCounts() returns (hlit: nat, hdist: nat, hclen: nat)
      requires Valid()
      modifies this`pos, this`numBits, this`codeBuffer, this`at, this`beyond
      ensures Valid() && CountsOf(old(Bits())) == Counts(hlit, hdist, hclen, Bits())
    {
      hlit := Receive(5);
      hdist := Receive(5);
      hclen := Receive(4);
      hlit, hdist, hclen := hlit + 257, hdist + 1, hclen + 4;
    }

    /** The codes whose lengths come in codes of these sizes. */
    method ReadCodes(sizes: array<nat>, hlit: nat, hdist: nat, ghost sized: Sized)
      returns (result: Status, ghost c: Codes)
      requires Valid() && TablesShaped() && sized == Sized(sizes[..], Bits()) && sizes !in TableArrays()
      requires sizes.Length == 19 && IsLengths(sizes[..]) && hlit <= 288 && hdist <= 32
      modifies this`pos, this`numBits, this`codeBuffer, this`at, this`beyond
      modifies lengths.fast, lengths.firstCode, lengths.maxCode
      modifies lengths.firstSymbol, lengths.size, lengths.value
      modifies distances.fast, distances.firstCode, distances.maxCode
      modifies distances.firstSymbol, distances.size, distances.value
      ensures Valid()
      ensures TablesFrom(sized, hlit, hdist) == if result.Ok? then Tables(c, Bits()) else NoTables(result.why)
      ensures result.Ok? ==> HasBuilt(c)
    {
      c := Codes([], []);
      var codeLength := new Table();
      var ok := codeLength.Build(sizes[..]);
      if !ok {
        NoSizes(sized, hlit, hdist);
        return Failed(BadCodes), c;
      }
      result, c := ReadOwn(codeLength, hlit, hdist, sized);
    }

    /** The lengths of both lists, read with a table that has been built, and their tables. */
    method ReadOwn(codeLength: Table, hlit: nat, hdist: nat, ghost sized: Sized)
      returns (result: Status, ghost c: Codes)
      requires Valid() && TablesShaped() && sized.rest == Bits() && |sized.sizes| == 19
      requires codeLength.Built(sized.sizes) && Accepted(sized.sizes) && hlit <= 288 && hdist <= 32
      modifies this`pos, this`numBits, this`codeBuffer, this`at, this`beyond
      modifies lengths.fast, lengths.firstCode, lengths.maxCode
      modifies lengths.firstSymbol, lengths.size, lengths.value
      modifies distances.fast, distances.firstCode, distances.maxCode
      modifies distances.firstSymbol, distances.size, distances.value
      ensures Valid()
      ensures TablesFrom(sized, hlit, hdist) == if result.Ok? then Tables(c, Bits()) else NoTables(result.why)
      ensures result.Ok? ==> HasBuilt(c)
    {
      c := Codes([], []);
      var ok, lencodes := ReadCodeLengths(codeLength, sized.sizes, hlit + hdist);
      if !ok {
        NoList(sized, hlit, hdist);
        return Failed(BadLengths), c;
      }
      var lens := lencodes[..hlit + hdist];
      c := Codes(lens[..hlit], lens[hlit..]);
      GotList(sized, hlit, hdist, lens, Bits(), c);
      result := BuildOwn(lens[..hlit], lens[hlit..]);
    }

    method BuildOwn(hlens: seq<nat>, dlens: seq<nat>) returns (result: Status)
      requires TablesShaped() && Codes(hlens, dlens).Valid()
      modifies lengths.fast, lengths.firstCode, lengths.maxCode
      modifies lengths.firstSymbol, lengths.size, lengths.value
      modifies distances.fast, distances.firstCode, distances.maxCode
      modifies distances.firstSymbol, distances.size, distances.value
      ensures result == if Accepted(hlens) && Accepted(dlens) then Ok else Failed(BadCodes)
      ensures result.Ok? ==> HasBuilt(Codes(hlens, dlens))
    {
      var ok := lengths.Build(hlens);
      if !ok { return Failed(BadCodes); }
      ok := distances.Build(dlens);
      if !ok { return Failed(BadCodes); }
      result := Ok;
    }

    method BuildFixed()
      requires TablesShaped()
      modifies lengths.fast, lengths.firstCode, lengths.maxCode
      modifies lengths.firstSymbol, lengths.size, lengths.value
      modifies distances.fast, distances.firstCode, distances.maxCode
      modifies distances.firstSymbol, distances.size, distances.value
      ensures HasBuilt(FixedCodes())
    {
      FixedAccepted();
      var ok := lengths.Build(FixedLengths());
      ok := distances.Build(FixedDistances());
    }

    // ----- All blocks -----

    method ParseHeader() returns (result: Status)
      requires Valid() && at == numBits == 0
      modifies this`pos, this`at, this`beyond
      ensures Valid() && at == 16
      ensures result == if GoodHeader(At(zbuffer, 0), At(zbuffer, 1)) then Ok else Failed(BadHeader)
    {
      var cmf := NextWhole();
      var flg := NextWhole();
      result := if GoodHeader(cmf, flg) then Ok else Failed(BadHeader);
    }

    method ParseZlib() returns (result: Status)
      requires Valid() && TablesShaped() && at == numBits == 0 && zout == []
      modifies this`pos, this`numBits, this`codeBuffer, this`at, this`beyond, this`zout
      modifies lengths.fast, lengths.firstCode, lengths.maxCode
      modifies lengths.firstSymbol, lengths.size, lengths.value
      modifies distances.fast, distances.firstCode, distances.maxCode
      modifies distances.firstSymbol, distances.size, distances.value
      ensures Valid() && Zlib(zbuffer) == Outcome(result)
    {
      result := ParseHeader();
      if result != Ok { return; }
      numBits, codeBuffer := 0, 0;
      var last := false;
      while !last
        invariant Valid() && result.Ok?
        invariant Zlib(zbuffer) == if last then Done(zout, Bits()) else Blocks(zbuffer, at, zout)
        decreases !last, Bits().val
      {
        last, result := ParseBlock();
        if result != Ok { return; }
      }
    }

    method ReadBlockHead() returns (final: nat, kind: nat)
      requires Valid()
      modifies this`pos, this`numBits, this`codeBuffer, this`at, this`beyond
      ensures Valid() && final == old(Bits()).Next(1) && kind == old(Bits()).After(1).Next(2)
      ensures Bits() == old(Bits()).After(1).After(2)
    {
      final := Receive(1);
      kind := Receive(2);
    }

    /** One block of any type. */
    method ParseBlock() returns (last: bool, result: Status)
      requires Valid() && TablesShaped()
      modifies this`pos, this`numBits, this`codeBuffer, this`at, this`beyond, this`zout
      modifies lengths.fast, lengths.firstCode, lengths.maxCode
      modifies lengths.firstSymbol, lengths.size, lengths.value
      modifies distances.fast, distances.firstCode, distances.maxCode
      modifies distances.firstSymbol, distances.size, distances.value
      ensures Valid()
      ensures Blocks(zbuffer, old(at), old(zout))
           == if result.Ok? && !last then Blocks(zbuffer, at, zout) else Outcome(result)
      ensures result.Ok? && !last ==> Bits().val < old(Bits()).val
    {
      ghost var p, out := at, zout;
      var final, kind := ReadBlockHead();
      last := final == 1;
      result := ParseBody(kind);
      BlocksUnfold(zbuffer, p, out, final, kind, Outcome(result));
    }

    method ParseBody(kind: nat) returns (result: Status)
      requires Valid() && TablesShaped()
      modifies this`pos, this`numBits, this`codeBuffer, this`at, this`beyond, this`zout
      modifies lengths.fast, lengths.firstCode, lengths.maxCode
      modifies lengths.firstSymbol, lengths.size, lengths.value
      modifies distances.fast, distances.firstCode, distances.maxCode
      modifies distances.firstSymbol, distances.size, distances.value
      ensures Valid() && Body(zbuffer, kind, old(Bits()), old(zout)) == Outcome(result)
    {
      if kind == 0 {
        result := ParseStored();
      } else if kind == 1 {
        BuildFixed();
        result := ParseHuffmanBlock(FixedCodes());
      } else if kind == 2 {
        result := ParseOwn();
      } else {
        result := Failed(BadType);
      }
    }

    method ParseOwn() returns (result: Status)
      requires Valid() && TablesShaped()
      modifies this`pos, this`numBits, this`codeBuffer, this`at, this`beyond, this`zout
      modifies lengths.fast, lengths.firstCode, lengths.maxCode
      modifies lengths.firstSymbol, lengths.size, lengths.value
      modifies distances.fast, distances.firstCode, distances.maxCode
      modifies distances.firstSymbol, distances.size, distances.value
      ensures Valid() && OwnBlock(old(Bits()), old(zout)) == Outcome(result)
    {
      ghost var c;
      result, c := ComputeHuffmanCodes();
      if result != Ok { return; }
      result := ParseHuffmanBlock(c);
    }
  }

  /** An item as the reader returns it, without the stream that follows. */
  datatype Read = ReadByte(b: byte) | ReadBack(length: nat, distance: nat) | ReadEnd | ReadWrong

  function WithRest(x: Read, rest: Stream): Item {
    match x
    case ReadByte(b) => Byte(b, rest)
    case ReadBack(length, distance) => Back(length, distance, rest)
    case ReadEnd => End(rest)
    case ReadWrong => Wrong
  }

  lemma BlockUnfolds(c: Codes, r: Stream, out: seq<byte>, x: Read, rest: Stream)
    requires c.Valid() && NextItem(c, r) == WithRest(x, rest) && (!x.ReadWrong? ==> IsAhead(r, rest))
    ensures Block(c, r, out) == Apply(c, WithRest(x, rest), r, out)
  {
  }

  lemma LengthsUnfold(sizes: seq<nat>, r: Stream, lens: seq<nat>, total: nat, z: int, rest: Stream)
    requires IsLengths(sizes) && |sizes| == 19 && |lens| < total && AreLengths(lens) && z == Decoded(sizes, r.val)
    requires rest == if z < 0 then r else r.After(sizes[z])
    ensures z < 0 || (z == 16 && lens == []) ==> ReadLengths(sizes, r, lens, total) == NoLengths
    ensures z >= 0 && !(z == 16 && lens == []) ==>
              var run := Repeats(z, lens, rest);
              && run.len <= 15
              && ReadLengths(sizes, r, lens, total)
                 == if total - |lens| < run.times then NoLengths
                    else ReadLengths(sizes, run.rest, lens + Fill(run.len, run.times), total)
  {
  }

  lemma TwoLists(lens: seq<nat>, hlit: nat, c: Codes)
    requires AreLengths(lens) && hlit <= |lens| <= hlit + 32 && hlit <= 288
    requires c.lengths == lens[..hlit] && c.distances == lens[hlit..]
    ensures c.Valid()
  {
  }

  /** Where the first bits up to a multiple of eight end. */
  lemma WholeBytes(at: nat, numBits: nat, n: nat, w: nat) returns (bytes: nat)
    requires at + numBits == 8 * w && n == numBits % 8
    ensures at + n == 8 * ((at + 7) / 8) && numBits - n == 8 * bytes
  {
    bytes := numBits / 8;
    assert numBits == 8 * bytes + n;
    assert at + n == 8 * (w - bytes);
  }

  // ----- The buffer -----

  /** The buffered bits fit their count; they and the bytes from pos on are what follows the first at bits,
  of which the last beyond bytes were zeros past the end. */
  ghost predicate Buffered(z: seq<byte>, pos: nat, beyond: nat, codeBuffer: nat, numBits: nat, at: nat) {
    && pos <= |z| && codeBuffer < Pow2(numBits)
    && Join(codeBuffer, numBits, Val(z[pos..])) == Drop(Val(z), at)
    && at + numBits == 8 * (pos + beyond) && (beyond > 0 ==> pos == |z|)
  }

  lemma Consumed(z: seq<byte>, pos: nat, beyond: nat, codeBuffer: nat, numBits: nat, at: nat, n: nat)
    requires Buffered(z, pos, beyond, codeBuffer, numBits, at) && n <= numBits
    ensures Buffered(z, pos, beyond, Drop(codeBuffer, n), numBits - n, at + n)
    ensures Low(codeBuffer, n) == StreamAt(z, at).Next(n) && StreamAt(z, at + n) == StreamAt(z, at).After(n)
  {
    TakenOff(codeBuffer, numBits, n, Val(z[pos..]), Drop(Val(z), at));
    AfterAt(z, at, n);
  }

  lemma TakenOff(codeBuffer: nat, numBits: nat, n: nat, rest: nat, v: nat)
    requires n <= numBits && codeBuffer < Pow2(numBits) && v == Join(codeBuffer, numBits, rest)
    ensures Low(v, n) == Low(codeBuffer, n) && Drop(v, n) == Join(Drop(codeBuffer, n), numBits - n, rest)
    ensures Drop(codeBuffer, n) < Pow2(numBits - n)
  {
    BufferSplit(codeBuffer, n, numBits, rest);
    DropBound(codeBuffer, n, numBits - n);
  }

  /** A whole byte when nothing is buffered. */
  lemma WholeByte(z: seq<byte>, pos: nat, beyond: nat, codeBuffer: nat, at: nat)
    requires Buffered(z, pos, beyond, codeBuffer, 0, at)
    ensures Buffered(z, Skip(z, pos, 1), beyond + if pos < |z| then 0 else 1, codeBuffer, 0, at + 8)
    ensures At(z, pos) == At(z, at / 8)
  {
    Refilled(z, pos, beyond, codeBuffer, 0, at);
    EightBits(z, pos, codeBuffer);
    Consumed(z, Skip(z, pos, 1), beyond + if pos < |z| then 0 else 1, At(z, pos), 8, at, 8);
  }

  lemma Refilled(z: seq<byte>, pos: nat, beyond: nat, codeBuffer: nat, numBits: nat, at: nat)
    requires Buffered(z, pos, beyond, codeBuffer, numBits, at)
    ensures Buffered(z, Skip(z, pos, 1), beyond + if pos < |z| then 0 else 1, Join(codeBuffer, numBits, At(z, pos)),
                     numBits + 8, at)
  {
    var next := Skip(z, pos, 1);
    assert Pow2(8) == 256;
    NextByteOf(z, pos);
    JoinBound(codeBuffer, numBits, At(z, pos), 8);
    JoinAssoc(codeBuffer, numBits, At(z, pos), 8, Val(z[next..]));
  }

  lemma NextByteOf(z: seq<byte>, pos: nat)
    requires pos <= |z|
    ensures Join(At(z, pos), 8, Val(z[Skip(z, pos, 1)..])) == Val(z[pos..])
  {
    if pos < |z| {
      assert z[pos..][1..] == z[pos + 1..];
    } else {
      JoinZero(0, 8);
      LowSmall(0, 8);
    }
  }

  /** An empty buffer, filled with one byte and emptied again. */
  lemma EightBits(z: seq<byte>, pos: nat, codeBuffer: nat)
    requires codeBuffer < Pow2(0)
    ensures codeBuffer == 0 && Join(codeBuffer, 0, At(z, pos)) == At(z, pos) && Drop(At(z, pos), 8) == 0
  {
    assert Pow2(8) == 256;
    DropSmall(At(z, pos), 8);
  }

  lemma NothingBuffered(z: seq<byte>, pos: nat, codeBuffer: nat)
    requires pos <= |z| && codeBuffer < Pow2(0)
    ensures Buffered(z, pos, 0, codeBuffer, 0, 8 * pos)
  {
    DropBytes(z, pos);
  }

  lemma NoSizes(sized: Sized, hlit: nat, hdist: nat)
    requires |sized.sizes| == 19 && IsLengths(sized.sizes) && hlit <= 288 && hdist <= 32 && !Accepted(sized.sizes)
    ensures TablesFrom(sized, hlit, hdist) == NoTables(BadCodes)
  {
  }

  lemma NoList(sized: Sized, hlit: nat, hdist: nat)
    requires |sized.sizes| == 19 && IsLengths(sized.sizes) && hlit <= 288 && hdist <= 32 && Accepted(sized.sizes)
    requires ReadLengths(sized.sizes, sized.rest, [], hlit + hdist) == NoLengths
    ensures TablesFrom(sized, hlit, hdist) == NoTables(BadLengths)
  {
  }

  lemma GotList(sized: Sized, hlit: nat, hdist: nat, lens: seq<nat>, rest: Stream, c: Codes)
    requires |sized.sizes| == 19 && IsLengths(sized.sizes) && hlit <= 288 && hdist <= 32 && Accepted(sized.sizes)
    requires |lens| == hlit + hdist && c == Codes(lens[..hlit], lens[hlit..])
    requires ReadLengths(sized.sizes, sized.rest, [], hlit + hdist) == LengthList(lens, rest)
    ensures c.Valid()
    ensures TablesFrom(sized, hlit, hdist)
         == if Accepted(c.lengths) && Accepted(c.distances) then Tables(c, rest) else NoTables(BadCodes)
  {
    TwoLists(lens, hlit, c);
  }

  lemma NoBits(r: Stream)
    ensures r.Next(0) == 0 && r.After(0) == r
  {
  }

  /** At a whole byte the next eight bits are that byte. */
  lemma NextIsByte(z: seq<byte>, at: nat, q: nat)
    requires at == 8 * q
    ensures StreamAt(z, at).Next(8) == At(z, q)
  {
    if q < |z| {
      FirstByte(z, q);
    } else {
      ValBound(z);
      Pow2Monotone(8 * |z|, 8 * q);
      DropSmall(Val(z), 8 * q);
      LowSmall(0, 8);
    }
  }

  lemma {:induction false} JoinIsZero(a: nat, n: nat, b: nat)
    requires a < Pow2(n)
    ensures Join(a, n, b) == 0 <==> a == 0 && b == 0
  {
    if n > 0 {
      JoinIsZero(a / 2, n - 1, b);
    }
  }

  lemma {:induction false} ValIsZero(s: seq<byte>)
    ensures Val(s) == 0 <==> forall k :: 0 <= k < |s| ==> s[k] == 0
  {
    if s != [] {
      assert Pow2(8) == 256;
      JoinIsZero(s[0], 8, Val(s[1..]));
      ValIsZero(s[1..]);
    }
  }

  lemma ReadExtraSmall(j: nat, k: nat)
    requires j < 31 && k < 32
    ensures READ_LENGTH_EXTRA[j] <= 24 && READ_DISTANCE_EXTRA[k] <= 24
  {
  }

  /** Decoding looks at 16 bits only. */
  lemma DecodedLow(lens: seq<nat>, v: nat, w: nat)
    requires IsLengths(lens) && Low(v, 16) == Low(w, 16)
    ensures Decoded(lens, v) == Decoded(lens, w)
  {
    forall x: nat ensures Matches(lens, x, v) <==> Matches(lens, x, w) {
      if x < |lens| {
        RevLow(v, lens[x], 16);
        RevLow(w, lens[x], 16);
      }
    }
    if x: nat :| Matches(lens, x, v) {
      DecodedIs(lens, x, v);
      DecodedIs(lens, x, w);
    }
  }
}
