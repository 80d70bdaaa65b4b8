/** Any list of chunks as the reader takes them: the data of all image data chunks in the order of the file, with
other chunks before, between and after them. Chunk types are four bytes, the case of whose first letter (bit 5) says
whether a reader may skip an unknown chunk. Clauses 5.3 and 11.2.4 of the PNG specification. */
module PngChunks {
  import opened Bits
  import opened ByteReader
  import opened PngFile
  import opened PngWriter
  import PngFilter
  import PngRoundTrip
  import Lz77

  /** A chunk with whatever stands where its checksum should. */
  datatype Piece = Piece(tag: seq<byte>, data: seq<byte>, check: seq<byte>)

  const HEADER_TAG: seq<byte> := [73, 72, 68, 82]
  const DATA_TAG: seq<byte> := [73, 68, 65, 84]
  const PALETTE_TAG: seq<byte> := [80, 76, 84, 69]
  const TRANSPARENCY_TAG: seq<byte> := [116, 82, 78, 83]
  const END_TAG: seq<byte> := [73, 69, 78, 68]
  const APPLE_TAG: seq<byte> := [67, 103, 66, 73]

  predicate IsPiece(p: Piece) {
    |p.tag| == 4 && |p.data| < 0x1_0000_0000 && |p.check| == 4
  }

  predicate IsAncillary(tag: seq<byte>)
    requires |tag| == 4
  {
    tag[0] / 32 % 2 == 1
  }

  /** A chunk that the loop passes: image data, a whole palette, or an ancillary chunk whose length is an int. A chunk
  of transparent colours is not one. */
  predicate Passes(p: Piece) {
    && IsPiece(p)
    && (|| p.tag == DATA_TAG
        || (p.tag == PALETTE_TAG && |p.data| <= 768 && |p.data| % 3 == 0)
        || (IsAncillary(p.tag) && p.tag != TRANSPARENCY_TAG && |p.data| <= INT_MAX))
  }

  function PieceBytes(p: Piece): (bytes: seq<byte>)
    requires IsPiece(p)
    ensures |bytes| == 12 + |p.data|
  {
    Word(|p.data|) + p.tag + p.data + p.check
  }

  predicate AllPass(ps: seq<Piece>) {
    forall i :: 0 <= i < |ps| ==> Passes(ps[i])
  }

  function AllBytes(ps: seq<Piece>): seq<byte>
    requires AllPass(ps)
  {
    if ps == [] then [] else PieceBytes(ps[0]) + AllBytes(ps[1..])
  }

  /** The image data of all chunks, in their order. */
  function Collected(ps: seq<Piece>): seq<byte> {
    if ps == [] then [] else (if ps[0].tag == DATA_TAG then ps[0].data else []) + Collected(ps[1..])
  }

  // ----- Chunk types -----

  function Kind(tag: seq<byte>): nat
    requires |tag| == 4
  {
    Be(tag[0], tag[1], tag[2], tag[3])
  }

  lemma KindsAre()
    ensures Kind(HEADER_TAG) == IHDR && Kind(DATA_TAG) == IDAT && Kind(PALETTE_TAG) == PLTE
    ensures Kind(TRANSPARENCY_TAG) == TRNS && Kind(END_TAG) == IEND && Kind(APPLE_TAG) == CGBI
  {
  }

  lemma KindIsInjective(a: seq<byte>, b: seq<byte>)
    requires |a| == |b| == 4
    ensures Kind(a) == Kind(b) <==> a == b
  {
    if Kind(a) == Kind(b) {
      LastDigit((a[0] as int * 256 + a[1]) * 256 + a[2], a[3], (b[0] as int * 256 + b[1]) * 256 + b[2], b[3]);
      LastDigit(a[0] as int * 256 + a[1], a[2], b[0] as int * 256 + b[1], b[2]);
      LastDigit(a[0], a[1], b[0], b[1]);
      assert a == [a[0], a[1], a[2], a[3]] && b == [b[0], b[1], b[2], b[3]];
    }
  }

  lemma LastDigit(p: nat, a: byte, q: nat, b: byte)
    requires p * 256 + a == q * 256 + b
    ensures p == q && a == b
  {
  }

  /** Bit 29 of the type is bit 5 of its first letter. */
  lemma CaseBit(tag: seq<byte>)
    requires |tag| == 4
    ensures Kind(tag) / 0x2000_0000 % 2 == tag[0] / 32 % 2
  {
  }

  lemma TagIs(tag: seq<byte>)
    requires |tag| == 4
    ensures Kind(tag) == IHDR <==> tag == HEADER_TAG
    ensures Kind(tag) == IDAT <==> tag == DATA_TAG
    ensures Kind(tag) == PLTE <==> tag == PALETTE_TAG
    ensures Kind(tag) == TRNS <==> tag == TRANSPARENCY_TAG
    ensures Kind(tag) == IEND <==> tag == END_TAG
    ensures Kind(tag) == CGBI <==> tag == APPLE_TAG
  {
    KindsAre();
    KindIsInjective(tag, HEADER_TAG);
    KindIsInjective(tag, DATA_TAG);
    KindIsInjective(tag, PALETTE_TAG);
    KindIsInjective(tag, TRANSPARENCY_TAG);
    KindIsInjective(tag, END_TAG);
    KindIsInjective(tag, APPLE_TAG);
  }

  // ----- One chunk -----

  lemma StandsIsSlice(s: seq<byte>, pos: nat, bytes: seq<byte>, end: nat)
    requires StandsAt(s, pos, bytes) && end == pos + |bytes|
    ensures end <= |s| && s[pos..end] == bytes
  {
  }

  lemma PieceParts(s: seq<byte>, pos: nat, p: Piece, from: nat, end: nat)
    requires IsPiece(p) && StandsAt(s, pos, PieceBytes(p)) && from == pos + 8 && end == from + |p.data|
    ensures Be32(s, pos) == |p.data| && Be32(s, pos + 4) == Kind(p.tag)
    ensures end + 4 <= |s| && s[from..end] == p.data
  {
    var w := Word(|p.data|);
    StandsAppend(s, pos, w + p.tag + p.data, p.check);
    StandsAppend(s, pos, w + p.tag, p.data);
    StandsAppend(s, pos, w, p.tag);
    StandsIsSlice(s, pos, w, pos + 4);
    WordReads(|p.data|, s, pos);
    StandsIsSlice(s, from, p.data, end);
    Be32Is(s, pos + 4);
  }

  /** What the loop does with a chunk depends on its length, type and data alone. */
  lemma PieceReads(s: seq<byte>, pos: nat, st: State, p: Piece, from: nat)
    requires IsPiece(p) && StandsAt(s, pos, PieceBytes(p)) && st.Valid() && from == pos + 8
    ensures from + |p.data| + 4 <= |s| && s[from..from + |p.data|] == p.data
    ensures var step := Body(s, from, st, |p.data|, Kind(p.tag));
            Chunk(s, pos, st) == if step.Continue? then Continue(Skip(s, step.pos, 4), step.state) else step
  {
    PieceParts(s, pos, p, from, from + |p.data|);
    ChunkStep(s, pos, st, |p.data|, Kind(p.tag), from, Body(s, from, st, |p.data|, Kind(p.tag)));
  }

  /** The image data grow by a chunk of image data, and by nothing else, as long as an int holds their length. */
  lemma OnePiece(s: seq<byte>, pos: nat, st: State, p: Piece, next: nat)
    requires Passes(p) && StandsAt(s, pos, PieceBytes(p)) && st.Valid() && !st.first && next == pos + 12 + |p.data|
    ensures next <= |s|
    ensures Chunk(s, pos, st)
         == if p.tag != DATA_TAG then Continue(next, st)
            else if |st.idata| + |p.data| > INT_MAX then Stop(DataOverflow)
            else Continue(next, st.(idata := st.idata + p.data))
  {
    PieceReads(s, pos, st, p, pos + 8);
    TagIs(p.tag);
    CaseBit(p.tag);
    DataBounded(|st.idata|, |p.data|);
  }

  // ----- Chunks -----

  /** After any such chunks the loop is at their end, with the image data of all of them, unless these are too long
  for an int. */
  lemma {:induction false} PiecesRead(s: seq<byte>, pos: nat, st: State, ps: seq<Piece>, end: nat)
    requires AllPass(ps) && StandsAt(s, pos, AllBytes(ps)) && end == pos + |AllBytes(ps)|
    requires st.Valid() && !st.first
    ensures end <= |s|
    ensures Chunks(s, pos, st) == After(s, end, st, st.idata + Collected(ps))
    decreases |ps|
  {
    if ps == [] {
      assert st.idata + [] == st.idata;
    } else {
      var p, rest := ps[0], ps[1..];
      var next := pos + 12 + |p.data|;
      StandsAppend(s, pos, PieceBytes(p), AllBytes(rest));
      OnePiece(s, pos, st, p, next);
      CollectedUnfold(st.idata, ps, p, rest);
      if p.tag != DATA_TAG {
        GoesOn(s, pos, st, next, st);
        PiecesRead(s, next, st, rest, end);
      } else if |st.idata| + |p.data| <= INT_MAX {
        var st' := st.(idata := st.idata + p.data);
        GoesOn(s, pos, st, next, st');
        PiecesRead(s, next, st', rest, end);
      }
      EndStands(s, pos, ps, end);
    }
  }

  /** The loop from a position on with these image data, or its error when they are too long. */
  function After(s: seq<byte>, pos: nat, st: State, idata: seq<byte>): Step
    requires st.Valid() && pos <= |s|
  {
    if |idata| > INT_MAX then Stop(DataOverflow) else Chunks(s, pos, st.(idata := idata))
  }

  lemma EndStands(s: seq<byte>, pos: nat, ps: seq<Piece>, end: nat)
    requires AllPass(ps) && StandsAt(s, pos, AllBytes(ps)) && end == pos + |AllBytes(ps)|
    ensures end <= |s|
  {
  }

  lemma CollectedUnfold(before: seq<byte>, ps: seq<Piece>, p: Piece, rest: seq<Piece>)
    requires ps != [] && p == ps[0] && rest == ps[1..]
    ensures before + Collected(ps) == (if p.tag == DATA_TAG then before + p.data else before) + Collected(rest)
  {
    Associates(before, if p.tag == DATA_TAG then p.data else [], Collected(rest));
  }

  lemma Associates(a: seq<byte>, b: seq<byte>, c: seq<byte>)
    ensures a + (b + c) == a + b + c
    ensures b == [] ==> a + b == a
  {
  }

  lemma GoesOn(s: seq<byte>, pos: nat, st: State, next: nat, st': State)
    requires st.Valid() && pos <= |s| && Chunk(s, pos, st) == Continue(next, st')
    ensures Chunks(s, pos, st) == Chunks(s, next, st')
  {
  }

  /** A chunk whose type the reader does not know ends the loop, unless its type says that it is ancillary: that one
  is passed. */
  lemma UnknownPiece(s: seq<byte>, pos: nat, st: State, p: Piece)
    requires IsPiece(p) && StandsAt(s, pos, PieceBytes(p)) && st.Valid() && !st.first && |p.data| <= INT_MAX
    requires p.tag !in [HEADER_TAG, DATA_TAG, PALETTE_TAG, TRANSPARENCY_TAG, END_TAG, APPLE_TAG]
    ensures IsAncillary(p.tag) ==> Chunk(s, pos, st) == Continue(pos + 12 + |p.data|, st)
    ensures !IsAncillary(p.tag) ==> Chunk(s, pos, st) == Stop(UnknownChunk)
  {
    PieceReads(s, pos, st, p, pos + 8);
    TagIs(p.tag);
    CaseBit(p.tag);
  }

  /** Before the header there may be no other chunk, and after it no second header. */
  lemma HeaderFirst(s: seq<byte>, pos: nat, st: State, p: Piece)
    requires IsPiece(p) && StandsAt(s, pos, PieceBytes(p)) && st.Valid() && p.tag != APPLE_TAG
    ensures st.first && p.tag != HEADER_TAG ==> Chunk(s, pos, st) == Stop(FirstNotHeader)
    ensures !st.first && p.tag == HEADER_TAG ==> Chunk(s, pos, st) == Stop(MultipleHeaders)
  {
    PieceReads(s, pos, st, p, pos + 8);
    TagIs(p.tag);
  }

  // ----- Files -----

  /** The signature, a header, any chunks that the loop passes, an end chunk, and anything after it. */
  ghost predicate IsFile(s: seq<byte>, header: Piece, ps: seq<Piece>, last: Piece) {
    && IsPiece(header) && header.tag == HEADER_TAG && |header.data| == 13
    && AllPass(ps) && IsPiece(last) && last.tag == END_TAG
    && StandsAt(s, 0, [137, 80, 78, 71, 13, 10, 26, 10])
    && StandsAt(s, 8, PieceBytes(header))
    && StandsAt(s, 33, AllBytes(ps))
    && StandsAt(s, 33 + |AllBytes(ps)|, PieceBytes(last))
  }

  lemma FileIsSigned(s: seq<byte>)
    requires StandsAt(s, 0, [137, 80, 78, 71, 13, 10, 26, 10])
    ensures IsSigned(s)
  {
    forall i | 0 <= i < 8 ensures At(s, i) == SIGNATURE[i] {
      assert s[0 + i] == [137, 80, 78, 71, 13, 10, 26, 10][i];
    }
  }

  /** What the header says, with the image data. */
  function HeaderState(s: seq<byte>, idata: seq<byte>): State {
    State(false, Be32(s, 16), Be32(s, 20), Components(At(s, 25)), At(s, 28) == 1, idata)
  }

  lemma HeaderPiece(s: seq<byte>, header: Piece)
    requires IsPiece(header) && header.tag == HEADER_TAG && |header.data| == 13 && StandsAt(s, 8, PieceBytes(header))
    ensures Chunk(s, 8, Start) == if CheckHeader(s, 16).Wrong? then Stop(CheckHeader(s, 16).error)
                                  else Continue(33, HeaderState(s, []))
    ensures CheckHeader(s, 16).Fine? ==> HeaderState(s, []).Valid()
  {
    PieceReads(s, 8, Start, header, 16);
    KindsAre();
    HeaderBody(s);
  }

  lemma HeaderBody(s: seq<byte>)
    requires 33 <= |s|
    ensures Body(s, 16, Start, 13, IHDR)
         == if CheckHeader(s, 16).Wrong? then Stop(CheckHeader(s, 16).error) else Continue(29, HeaderState(s, []))
  {
  }

  lemma LastPiece(s: seq<byte>, pos: nat, st: State, last: Piece)
    requires IsPiece(last) && last.tag == END_TAG && StandsAt(s, pos, PieceBytes(last)) && st.Valid() && !st.first
    ensures pos <= |s| && Chunks(s, pos, st) == Finish(st)
  {
    PieceReads(s, pos, st, last, pos + 8);
    KindsAre();
  }

  /** The loop over a whole file ends with the image data of all chunks in their order, if the header passes its checks
  and an int holds the length. */
  lemma FileReads(s: seq<byte>, header: Piece, ps: seq<Piece>, last: Piece)
    requires IsFile(s, header, ps, last)
    ensures IsSigned(s)
    ensures Chunks(s, 8, Start)
         == if CheckHeader(s, 16).Wrong? then Stop(CheckHeader(s, 16).error)
            else if |Collected(ps)| > INT_MAX then Stop(DataOverflow)
            else Finish(HeaderState(s, Collected(ps)))
  {
    FileIsSigned(s);
    HeaderPiece(s, header);
    if CheckHeader(s, 16).Fine? {
      GoesOn(s, 8, Start, 33, HeaderState(s, []));
      RestReads(s, 33, HeaderState(s, []), ps, 33 + |AllBytes(ps)|, last);
    }
  }

  lemma RestReads(s: seq<byte>, pos: nat, st: State, ps: seq<Piece>, end: nat, last: Piece)
    requires st.Valid() && !st.first && st.idata == [] && AllPass(ps)
    requires StandsAt(s, pos, AllBytes(ps)) && end == pos + |AllBytes(ps)|
    requires IsPiece(last) && last.tag == END_TAG && StandsAt(s, end, PieceBytes(last))
    ensures pos <= |s|
    ensures Chunks(s, pos, st)
         == if |Collected(ps)| > INT_MAX then Stop(DataOverflow) else Finish(st.(idata := Collected(ps)))
  {
    PiecesRead(s, pos, st, ps, end);
    assert [] + Collected(ps) == Collected(ps);
    if |Collected(ps)| <= INT_MAX {
      LastPiece(s, end, st.(idata := Collected(ps)), last);
    }
  }

  /** The program's result for such a file. */
  lemma FileLoads(s: seq<byte>, header: Piece, ps: seq<Piece>, last: Piece, reqComp: int, result: Loaded)
    requires IsFile(s, header, ps, last) && Loads(s, reqComp, result)
    ensures var check := CheckHeader(s, 16);
            if check.Wrong? then result == Failed(check.error)
            else if |Collected(ps)| > INT_MAX then result == Failed(DataOverflow)
            else Finishes(HeaderState(s, Collected(ps)), reqComp, result)
  {
    FileReads(s, header, ps, last);
  }

  /** An image comes back from any file that has its stream in pieces, whatever other chunks stand between them. */
  lemma SplitRoundTrip(file: seq<byte>, image: PngFilter.Image, x: nat, n: nat, crc: Crc, fts: seq<nat>, z: seq<byte>,
                       ts: seq<Lz77.Token>, cs: seq<Code>, s: seq<byte>, header: Piece, ps: seq<Piece>, last: Piece,
                       reqComp: int, result: Loaded)
    requires IsPng(file, image, x, n, crc, fts, z, ts, cs)
    requires 0 < x && PngRoundTrip.WithinLimits(x, image.height, n)
    requires IsFile(s, header, ps, last) && header.data == HeaderBytes(x, image.height, n) && Collected(ps) == z
    requires Loads(s, reqComp, result)
    ensures PngRoundTrip.IsBack(image, x, n, reqComp, result)
  {
    PngRoundTrip.StreamFits(file, image, x, n, crc, fts, z, ts, cs);
    SplitFinishes(s, header, ps, last, x, image.height, n, z, reqComp, result);
    PngRoundTrip.DataDecodes(file, image, x, n, crc, fts, z, ts, cs, reqComp, result);
    PngRoundTrip.RowFits(n, x, image.height, OutComponents(n, reqComp));
  }

  lemma SplitFinishes(s: seq<byte>, header: Piece, ps: seq<Piece>, last: Piece, x: nat, y: nat, n: nat, z: seq<byte>,
                      reqComp: int, result: Loaded)
    requires IsFile(s, header, ps, last) && 1 <= n <= 4 && 0 < x && PngRoundTrip.WithinLimits(x, y, n)
    requires header.data == HeaderBytes(x, y, n) && Collected(ps) == z && |z| <= INT_MAX && Loads(s, reqComp, result)
    ensures Finishes(State(false, x, y, n, false, z), reqComp, result)
  {
    PieceReads(s, 8, Start, header, 16);
    PngRoundTrip.HeaderReads(s, x, y, n);
    FileLoads(s, header, ps, last, reqComp, result);
    SameState(s, x, y, n, z);
  }

  lemma SameState(s: seq<byte>, x: nat, y: nat, n: nat, z: seq<byte>)
    requires CheckHeader(s, 16).Fine? && 16 <= |s|
    requires PngFile.ReadHeader(s, 16, Start) == Continue(29, State(false, x, y, n, false, []))
    ensures HeaderState(s, z) == State(false, x, y, n, false, z)
  {
  }
}
