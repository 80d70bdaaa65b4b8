/** Reading what was written: for every image within the reader's limits the pixels come back exactly. For
every other image that the writer's own int arithmetic can hold, the reader reports an error. */
module PngRoundTrip {
  import opened Bits
  import opened Spans
  import opened ByteReader
  import opened PngFile
  import opened PngWriter
  import PngFilter
  import PngRows
  import PngPixels
  import PngRowsRoundTrip
  import PngReader
  import Lz77
  import ZlibRoundTrip
  import ZlibSize

  /** The position of a chunk in a file. */
  ghost predicate ChunkAt(s: seq<byte>, pos: nat, tag: seq<byte>, data: seq<byte>, crc: Crc)
    requires |tag| == 4
  {
    pos + 12 + |data| <= |s| && s[pos..pos + 12 + |data|] == ChunkBytes(tag, data, crc)
  }

  lemma SubSlice(s: seq<byte>, lo: nat, hi: nat, i: nat, j: nat)
    requires lo <= hi <= |s| && i <= j <= hi - lo
    ensures s[lo..hi][i..j] == s[lo + i..lo + j]
  {
    var a, b := s[lo..hi][i..j], s[lo + i..lo + j];
    assert |a| == |b| && forall k :: 0 <= k < |a| ==> a[k] == b[k];
  }

  lemma ChunkParts(s: seq<byte>, pos: nat, tag: seq<byte>, data: seq<byte>, crc: Crc)
    requires |tag| == 4 && ChunkAt(s, pos, tag, data, crc)
    ensures s[pos..pos + 4] == Word(|data|) && s[pos + 4..pos + 8] == tag && s[pos + 8..pos + 8 + |data|] == data
  {
    var c := ChunkBytes(tag, data, crc);
    var end := pos + 12 + |data|;
    SubSlice(s, pos, end, 0, 4);
    SubSlice(s, pos, end, 4, 8);
    SubSlice(s, pos, end, 8, 8 + |data|);
    assert c[0..4] == Word(|data|) && c[4..8] == tag && c[8..8 + |data|] == data;
  }

  lemma TagReads(s: seq<byte>, pos: nat, a: char, b: char, c: char, d: char)
    requires a as int < 256 && b as int < 256 && c as int < 256 && d as int < 256
    requires pos + 4 <= |s| && s[pos..pos + 4] == Tag(a, b, c, d)
    ensures Be32(s, pos) == Be(a as int, b as int, c as int, d as int)
  {
    Be32Is(s, pos);
    FourBytes(s, pos, s[pos..pos + 4]);
  }

  lemma FourBytes(s: seq<byte>, pos: nat, tag: seq<byte>)
    requires pos + 4 <= |s| && s[pos..pos + 4] == tag
    ensures At(s, pos) == tag[0] && At(s, pos + 1) == tag[1] && At(s, pos + 2) == tag[2] && At(s, pos + 3) == tag[3]
  {
  }

  /** A chunk is read as what was written. */
  lemma ChunkReads(s: seq<byte>, pos: nat, st: State, a: char, b: char, c: char, d: char, data: seq<byte>, crc: Crc)
    requires st.Valid() && |data| < 0x1_0000_0000
    requires a as int < 256 && b as int < 256 && c as int < 256 && d as int < 256
    requires ChunkAt(s, pos, Tag(a, b, c, d), data, crc)
    ensures pos + 12 + |data| <= |s| && s[pos + 8..pos + 8 + |data|] == data
    ensures Be32(s, pos) == |data| && Be32(s, pos + 4) == Be(a as int, b as int, c as int, d as int)
    ensures var step := Body(s, pos + 8, st, |data|, Be(a as int, b as int, c as int, d as int));
            Chunk(s, pos, st) == if step.Continue? then Continue(Skip(s, step.pos, 4), step.state) else step
  {
    ChunkParts(s, pos, Tag(a, b, c, d), data, crc);
    WordReads(|data|, s, pos);
    TagReads(s, pos + 4, a, b, c, d);
    var kind := Be(a as int, b as int, c as int, d as int);
    ChunkStep(s, pos, st, |data|, kind, pos + 8, Body(s, pos + 8, st, |data|, kind));
  }

  // ----- The three chunks of a written file -----

  lemma FileParts(s: seq<byte>, x: nat, y: nat, n: nat, z: seq<byte>, crc: Crc)
    requires 1 <= n <= 4 && s == FileBytes(x, y, n, z, crc)
    ensures IsSigned(s)
    ensures ChunkAt(s, 8, Tag('I', 'H', 'D', 'R'), HeaderBytes(x, y, n), crc)
    ensures ChunkAt(s, 33, Tag('I', 'D', 'A', 'T'), z, crc)
    ensures ChunkAt(s, 45 + |z|, Tag('I', 'E', 'N', 'D'), [], crc)
  {
    var h := ChunkBytes(Tag('I', 'H', 'D', 'R'), HeaderBytes(x, y, n), crc);
    var d := ChunkBytes(Tag('I', 'D', 'A', 'T'), z, crc);
    var e := ChunkBytes(Tag('I', 'E', 'N', 'D'), [], crc);
    FourParts(SIGNATURE, h, d, e);
    assert forall i :: 0 <= i < 8 ==> At(s, i) == s[..8][i];
  }

  lemma FourParts(a: seq<byte>, b: seq<byte>, c: seq<byte>, d: seq<byte>)
    ensures var s := a + b + c + d;
            s[..|a|] == a && s[|a|..|a| + |b|] == b && s[|a| + |b|..|a| + |b| + |c|] == c
            && s[|a| + |b| + |c|..|a| + |b| + |c| + |d|] == d
  {
  }

  lemma ColorReads(n: nat)
    requires 1 <= n <= 4
    ensures var color := UChar(COLOR_TYPES[n]);
            color <= 6 && color % 2 == 0 && Components(color) == n
  {
  }

  lemma HeaderData(s: seq<byte>, x: nat, y: nat, n: nat)
    requires 1 <= n <= 4 && x < 0x1_0000_0000 && y < 0x1_0000_0000
    requires 29 <= |s| && s[16..29] == HeaderBytes(x, y, n)
    ensures Be32(s, 16) == x && Be32(s, 20) == y
    ensures At(s, 24) == 8 && At(s, 25) == UChar(COLOR_TYPES[n]) && At(s, 26) == At(s, 27) == At(s, 28) == 0
  {
    var h := HeaderBytes(x, y, n);
    SubSlice(s, 16, 29, 0, 4);
    SubSlice(s, 16, 29, 4, 8);
    assert h[0..4] == Word(x) && h[4..8] == Word(y);
    WordReads(x, s, 16);
    WordReads(y, s, 20);
    assert s[24] == h[8] && s[25] == h[9] && s[26] == h[10] && s[27] == h[11] && s[28] == h[12];
  }

  /** The header passes exactly when both sides and the whole image are within the limits. */
  lemma HeaderReads(s: seq<byte>, x: nat, y: nat, n: nat)
    requires 1 <= n <= 4 && 0 < x < 0x1_0000_0000 && y < 0x1_0000_0000
    requires 29 <= |s| && s[16..29] == HeaderBytes(x, y, n)
    ensures CheckHeader(s, 16) ==
              if x > MAX_SIDE || y > MAX_SIDE then Wrong(TooLarge)
              else if y == 0 then Wrong(ZeroPixels)
              else if !FitsSize(x, y, n) then Wrong(TooLarge)
              else Fine
    ensures CheckHeader(s, 16).Fine? ==>
              PngFile.ReadHeader(s, 16, Start) == Continue(29, State(false, x, y, n, false, []))
  {
    HeaderData(s, x, y, n);
    ColorReads(n);
  }

  /** When the header passes, the chunk loop ends with exactly the zlib stream collected. */
  lemma ChunksRead(s: seq<byte>, x: nat, y: nat, n: nat, z: seq<byte>, crc: Crc)
    requires 1 <= n <= 4 && 0 < x < 0x1_0000_0000 && y < 0x1_0000_0000
    requires s == FileBytes(x, y, n, z, crc)
    ensures IsSigned(s) && 29 <= |s| && s[16..29] == HeaderBytes(x, y, n)
    ensures CheckHeader(s, 16).Wrong? ==> Chunks(s, 8, Start) == Stop(CheckHeader(s, 16).error)
    ensures CheckHeader(s, 16).Fine? && |z| <= INT_MAX ==>
              Chunks(s, 8, Start) == Finish(State(false, x, y, n, false, z))
  {
    FileParts(s, x, y, n, z, crc);
    HeaderChunk(s, x, y, n, crc);
    if CheckHeader(s, 16).Fine? && |z| <= INT_MAX {
      DataReads(s, State(false, x, y, n, false, []), z, crc);
    }
  }

  lemma HeaderChunk(s: seq<byte>, x: nat, y: nat, n: nat, crc: Crc)
    requires 1 <= n <= 4 && 0 < x < 0x1_0000_0000 && y < 0x1_0000_0000
    requires ChunkAt(s, 8, Tag('I', 'H', 'D', 'R'), HeaderBytes(x, y, n), crc)
    ensures 33 <= |s| && s[16..29] == HeaderBytes(x, y, n)
    ensures Chunk(s, 8, Start) == if CheckHeader(s, 16).Wrong? then Stop(CheckHeader(s, 16).error)
                                  else Continue(33, State(false, x, y, n, false, []))
  {
    ChunkReads(s, 8, Start, 'I', 'H', 'D', 'R', HeaderBytes(x, y, n), crc);
    HeaderReads(s, x, y, n);
    HeaderBody(s);
  }

  lemma HeaderBody(s: seq<byte>)
    requires 16 <= |s|
    ensures Body(s, 16, Start, 13, IHDR) == PngFile.ReadHeader(s, 16, Start)
  {
  }

  lemma DataReads(s: seq<byte>, st: State, z: seq<byte>, crc: Crc)
    requires st.Valid() && !st.first && st.idata == [] && |z| <= INT_MAX
    requires ChunkAt(s, 33, Tag('I', 'D', 'A', 'T'), z, crc)
    requires ChunkAt(s, 45 + |z|, Tag('I', 'E', 'N', 'D'), [], crc)
    ensures Chunks(s, 33, st) == Finish(st.(idata := z))
  {
    ChunkReads(s, 33, st, 'I', 'D', 'A', 'T', z, crc);
    DataBounded(0, |z|);
    assert [] + z == z;
    var st' := st.(idata := z);
    assert Chunk(s, 33, st) == Continue(45 + |z|, st');
    ChunkReads(s, 45 + |z|, st', 'I', 'E', 'N', 'D', [], crc);
  }

  // ----- Sizes -----

  lemma {:induction false} SpanOneMore(w: nat, y: nat)
    ensures Span(w + 1, y) == Span(w, y) + y
  {
    if y > 0 {
      SpanOneMore(w, y - 1);
    }
  }

  /** Within the limits, the compressed data fit an int. */
  lemma StreamFits(file: seq<byte>, image: PngFilter.Image, x: nat, n: nat, crc: Crc, fts: seq<nat>, z: seq<byte>,
                   ts: seq<Lz77.Token>, cs: seq<Code>)
    requires IsPng(file, image, x, n, crc, fts, z, ts, cs)
    requires image.height <= MAX_SIDE && FitsSize(x, image.height, n)
    ensures 0 < |z| <= INT_MAX
  {
    ZlibSize.StreamSize(z, PngRows.Encoded(image, fts, n), ts, cs);
    SpanOneMore(image.w, image.height);
  }

  /** One row of x pixels of n components takes far fewer bits than an int holds. */
  lemma RowFits(n: nat, x: nat, y: nat, outn: nat)
    requires 1 <= n <= 4 && 0 < x <= MAX_SIDE && 0 < y <= MAX_SIDE && FitsSize(x, y, n)
    requires outn == n || (outn == n + 1 && outn != 3)
    ensures Allocates(n, x, 8, 7)
    ensures Allocates(x, y, outn, 0) <==> !(n == 1 && outn == 2 && Span(x, y) == MAX_SIZE)
  {
    RowBits(n, x);
    SpanSpan(n, x, y);
    OutputSize(n, outn, Span(x, y));
  }

  lemma RowBits(n: nat, x: nat)
    requires 1 <= n <= 4 && x <= MAX_SIDE
    ensures Allocates(n, x, 8, 7)
  {
    SpanIsProduct(n, x);
    assert (4 - n) * x >= 0;
    SpanIsProduct(Span(n, x), 8);
  }

  lemma OutputSize(n: nat, outn: nat, cells: nat)
    requires 1 <= n <= 4 && Span(n, cells) <= MAX_SIZE && (outn == n || (outn == n + 1 && outn != 3))
    ensures cells <= INT_MAX
    ensures Span(cells, outn) <= INT_MAX <==> !(n == 1 && outn == 2 && cells == MAX_SIZE)
  {
    SpanIsProduct(n, cells);
    SpanIsProduct(cells, outn);
    assert cells * outn == n * cells + (outn - n) * cells;
    if n > 1 {
      assert (n - 2) * cells >= 0;
    }
  }

  // ----- The round trip -----

  /** The image as the caller gets it back: rows packed, and 255 after every pixel if alpha was asked for. */
  function Restored(image: PngFilter.Image, x: nat, n: nat, outn: nat): seq<byte>
    requires image.Valid() && image.w == Span(n, x) && (outn == n || outn == n + 1)
  {
    var pixels := PngRowsRoundTrip.Flat(PngRowsRoundTrip.Rows(image, image.height));
    PngRowsRoundTrip.FlatLength(PngRowsRoundTrip.Rows(image, image.height), image.w);
    SpanSpan(n, x, image.height);
    PngPixels.Spread(pixels, n, outn, Span(x, image.height))
  }

  lemma DataDecodes(file: seq<byte>, image: PngFilter.Image, x: nat, n: nat, crc: Crc, fts: seq<nat>, z: seq<byte>,
                    ts: seq<Lz77.Token>, cs: seq<Code>, reqComp: int, result: Loaded)
    requires IsPng(file, image, x, n, crc, fts, z, ts, cs)
    requires 0 < x <= MAX_SIDE && 0 < image.height <= MAX_SIDE && FitsSize(x, image.height, n)
    requires z != [] && Finishes(State(false, x, image.height, n, false, z), reqComp, result)
    ensures var outn := OutComponents(n, reqComp);
            result == if !Allocates(x, image.height, outn, 0) then Failed(OutOfMemory)
                      else Image(x, image.height, n, outn, Restored(image, x, n, outn))
  {
    var outn := OutComponents(n, reqComp);
    var raw := PngRows.Encoded(image, fts, n);
    ZlibRoundTrip.ZlibRoundTrip(z, raw, ts, cs);
    RowFits(n, x, image.height, outn);
    PngRowsRoundTrip.ImageRoundTrip(image, fts, x, n, outn, raw);
  }

  /** Both sides and the number of components are within the reader's limits. */
  predicate WithinLimits(x: nat, y: nat, n: nat) {
    x <= MAX_SIDE && 0 < y <= MAX_SIDE && FitsSize(x, y, n)
  }

  /** The sizes that the writer computes fit an int: the filtered rows, the distance from the first row to
  the last, and the file. */
  predicate WriterInRange(image: PngFilter.Image, z: seq<byte>) {
    && PngRows.Size(image.w, image.height) <= INT_MAX && 57 + |z| <= INT_MAX
    && (image.height > 0 ==> -INT_MAX - 1 <= image.stride * (image.height - 1) <= INT_MAX)
  }

  /** The image is loaded, with the components asked for, but for one that with alpha would be too large by
  one byte. */
  predicate IsBack(image: PngFilter.Image, x: nat, n: nat, reqComp: int, result: Loaded)
    requires image.Valid() && image.w == Span(n, x)
  {
    var outn := OutComponents(n, reqComp);
    result == if n == 1 && reqComp == 2 && Span(x, image.height) == MAX_SIZE then Failed(OutOfMemory)
              else Image(x, image.height, n, outn, Restored(image, x, n, outn))
  }

  /** For any pixels, stride, orientation and choice of filters and matches: the reader gives back the image
  if it is within the limits, but for one that with alpha would be too large by one byte; and outside the
  limits it says what is wrong. */
  lemma PngRoundTrip(file: seq<byte>, image: PngFilter.Image, x: nat, n: nat, crc: Crc, fts: seq<nat>, z: seq<byte>,
                     ts: seq<Lz77.Token>, cs: seq<Code>, reqComp: int, result: Loaded)
    requires IsPng(file, image, x, n, crc, fts, z, ts, cs) && 0 < x <= INT_MAX && image.height <= INT_MAX
    requires Loads(file, reqComp, result)
    ensures WithinLimits(x, image.height, n) ==> IsBack(image, x, n, reqComp, result)
    ensures !WithinLimits(x, image.height, n) && WriterInRange(image, z) ==>
              result == Failed(if x <= MAX_SIDE && image.height == 0 then ZeroPixels else TooLarge)
  {
    var y := image.height;
    ChunksRead(file, x, y, n, z, crc);
    HeaderReads(file, x, y, n);
    if WithinLimits(x, y, n) {
      StreamFits(file, image, x, n, crc, fts, z, ts, cs);
      DataDecodes(file, image, x, n, crc, fts, z, ts, cs, reqComp, result);
      RowFits(n, x, y, OutComponents(n, reqComp));
    }
  }

  /** Within the limits the writer's sizes fit, whatever the compressor chose, when the stride does. */
  lemma LimitsAreInRange(file: seq<byte>, image: PngFilter.Image, x: nat, n: nat, crc: Crc, fts: seq<nat>, z: seq<byte>,
                         ts: seq<Lz77.Token>, cs: seq<Code>)
    requires IsPng(file, image, x, n, crc, fts, z, ts, cs) && WithinLimits(x, image.height, n)
    requires -INT_MAX - 1 <= image.stride * (image.height - 1) <= INT_MAX
    ensures WriterInRange(image, z)
  {
    ZlibSize.StreamSize(z, PngRows.Encoded(image, fts, n), ts, cs);
    SpanOneMore(image.w, image.height);
    SpanSpan(n, x, image.height);
  }

  /** What comes back has the size and the components that were written, and one more for an alpha that was asked for
  after one, three or four components: never for a third one after two. Only one size fails. */
  lemma BackIs(image: PngFilter.Image, x: nat, n: nat, reqComp: int, result: Loaded)
    requires image.Valid() && image.w == Span(n, x) && 1 <= n <= 4 && IsBack(image, x, n, reqComp, result)
    ensures result.Image? ==>
              && result.x == x && result.y == image.height && result.n == n
              && result.outn == if reqComp == n + 1 && (n == 1 || n == 3 || n == 4) then n + 1 else n
    ensures result.Failed? <==> n == 1 && reqComp == 2 && x * image.height == 0x4000_0000
    ensures result.Failed? ==> result.error == OutOfMemory
  {
    SpanIsProduct(x, image.height);
  }

  /** Saving and loading, with the program itself. */
  method SaveAndLoad(pixels: seq<byte>, origin: nat, strideBytes: int, x: nat, y: nat, n: nat, flip: bool,
                     forceFilter: int, quality: int, hash: (byte, byte, byte) -> nat, crc: Crc, reqComp: int)
    returns (result: Loaded)
    requires 0 < x <= MAX_SIDE && 0 < y <= MAX_SIDE && 1 <= n <= 4 && FitsSize(x, y, n)
    requires MemoryImage(pixels, origin, strideBytes, x, y, n, flip).Valid()
    ensures Span(n, x) == x * n
    ensures IsBack(MemoryImage(pixels, origin, strideBytes, x, y, n, flip), x, n, reqComp, result)
    ensures result.Image? ==>
              && result.x == x && result.y == y && result.n == n
              && result.outn == if reqComp == n + 1 && (n == 1 || n == 3 || n == 4) then n + 1 else n
    ensures result.Failed? <==> n == 1 && reqComp == 2 && x * y == 0x4000_0000
  {
    SpanIsProduct(n, x);
    ghost var image := MemoryImage(pixels, origin, strideBytes, x, y, n, flip);
    var png, fts, z, ts, cs :=
      WritePng(pixels, origin, strideBytes, x, y, n, flip, forceFilter, quality, hash, crc);
    var context := new Context(png[..]);
    var reader := new PngReader.Png(context);
    result := reader.ParsePngFile(reqComp);
    PngRoundTrip(png[..], image, x, n, crc, fts, z, ts, cs, reqComp, result);
    BackIs(image, x, n, reqComp, result);
  }
}
