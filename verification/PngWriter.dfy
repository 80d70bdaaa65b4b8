/** The PNG writer: filter, compress, and frame in chunks. */
module PngWriter {
  import opened Bits
  import opened Spans
  import ByteReader
  import PngFile
  import PngFilter
  import PngRows
  import Lz77
  import Deflate

  /** The checksum of a chunk's type and data; the reader never looks at it. */
  type Crc = seq<byte> -> nat

  /** A 32-bit number, the most significant byte first. */
  function Word(v: nat): (w: seq<byte>)
    ensures |w| == 4
  {
    [UChar(v / 0x100_0000), UChar(v / 0x1_0000), UChar(v / 0x100), UChar(v)]
  }

  lemma WordReads(v: nat, s: seq<byte>, i: nat)
    requires v < 0x1_0000_0000 && i + 4 <= |s| && s[i..i + 4] == Word(v)
    ensures ByteReader.Be32(s, i) == v
  {
    assert s[i] == s[i..i + 4][0] && s[i + 1] == s[i..i + 4][1] && s[i + 2] == s[i..i + 4][2]
      && s[i + 3] == s[i..i + 4][3];
    ByteReader.Be32Is(s, i);
    WordValue(v);
  }

  lemma WordValue(v: nat)
    requires v < 0x1_0000_0000
    ensures v / 0x100_0000 % 256 * 0x100_0000 + v / 0x1_0000 % 256 * 0x1_0000 + v / 0x100 % 256 * 0x100 + v % 256 == v
  {
    var a, b := v / 0x100, v / 0x1_0000;
    assert v == a * 0x100 + v % 0x100;
    assert b == a / 0x100 && a == b * 0x100 + a % 0x100;
    assert v / 0x100_0000 == b / 0x100 < 0x100 && b == b / 0x100 * 0x100 + b % 0x100;
  }

  function Tag(a: char, b: char, c: char, d: char): (tag: seq<byte>)
    ensures |tag| == 4
  {
    [UChar(a as int), UChar(b as int), UChar(c as int), UChar(d as int)]
  }

  /** One chunk: length, type, data, checksum. */
  function ChunkBytes(tag: seq<byte>, data: seq<byte>, crc: Crc): (chunk: seq<byte>)
    requires |tag| == 4
    ensures |chunk| == 12 + |data|
  {
    Word(|data|) + tag + data + Word(crc(tag + data))
  }

  const COLOR_TYPES: seq<int> := [-1, 0, 4, 2, 6]

  function HeaderBytes(x: nat, y: nat, n: nat): (data: seq<byte>)
    requires 1 <= n <= 4
    ensures |data| == 13
  {
    Word(x) + Word(y) + [8, UChar(COLOR_TYPES[n]), 0, 0, 0]
  }

  /** The file around a zlib stream. */
  function FileBytes(x: nat, y: nat, n: nat, z: seq<byte>, crc: Crc): seq<byte>
    requires 1 <= n <= 4
  {
    PngFile.SIGNATURE + ChunkBytes(Tag('I', 'H', 'D', 'R'), HeaderBytes(x, y, n), crc)
      + ChunkBytes(Tag('I', 'D', 'A', 'T'), z, crc) + ChunkBytes(Tag('I', 'E', 'N', 'D'), [], crc)
  }

  // ----- Writing into the output buffer -----

  method Put(out: array<byte>, o: nat, data: seq<byte>) returns (o': nat)
    requires o + |data| <= out.Length
    modifies out
    ensures o' == o + |data| && out[..o'] == old(out[..o]) + data
  {
    forall i | 0 <= i < |data| { out[o + i] := data[i]; }
    o' := o + |data|;
  }

  method PutWord(out: array<byte>, o: nat, v: nat) returns (o': nat)
    requires o + 4 <= out.Length
    modifies out
    ensures o' == o + 4 && out[..o'] == old(out[..o]) + Word(v)
  {
    o' := Put(out, o, Word(v));
  }

  /** The checksum of the last length bytes and the type before them. */
  method PutCrc(out: array<byte>, o: nat, length: nat, crc: Crc) returns (o': nat)
    requires length + 4 <= o && o + 4 <= out.Length
    modifies out
    ensures o' == o + 4 && out[..o'] == old(out[..o]) + Word(crc(old(out[o - length - 4..o])))
  {
    o' := PutWord(out, o, crc(out[o - length - 4..o]));
  }

  method PutChunk(out: array<byte>, o: nat, tag: seq<byte>, data: seq<byte>, crc: Crc) returns (o': nat)
    requires |tag| == 4 && o + 12 + |data| <= out.Length
    modifies out
    ensures o' == o + 12 + |data| && out[..o'] == old(out[..o]) + ChunkBytes(tag, data, crc)
  {
    ghost var before := out[..o];
    o' := PutWord(out, o, |data|);
    o' := Put(out, o', tag);
    o' := Put(out, o', data);
    assert out[o' - |data| - 4..o'] == out[..o'][o' - |data| - 4..] == tag + data;
    o' := PutCrc(out, o', |data|, crc);
    assert out[..o'] == before + ChunkBytes(tag, data, crc);
  }

  /** Saves an image of x by y pixels of n components each. */
  method WritePng(pixels: seq<byte>, origin: nat, strideBytes: int, x: nat, y: nat, n: nat, flip: bool,
                  forceFilter: int, quality: int, hash: (byte, byte, byte) -> nat, crc: Crc)
    returns (png: array<byte>, ghost fts: seq<nat>, ghost z: seq<byte>, ghost ts: seq<Lz77.Token>, ghost cs: seq<Code>)
    requires 0 < x && 1 <= n <= 4
    requires MemoryImage(pixels, origin, strideBytes, x, y, n, flip).Valid()
    ensures IsPng(png[..], MemoryImage(pixels, origin, strideBytes, x, y, n, flip), x, n, crc, fts, z, ts, cs)
  {
    var image := MemoryImage(pixels, origin, strideBytes, x, y, n, flip);
    SpanIsProduct(n, x);
    SpanMonotone(n, 1, x);
    var filt;
    filt, fts := PngRows.FilterImage(image, n, forceFilter);
    z, ts, cs := [], [], [];
    var zlib;
    zlib, ts, cs := Deflate.Compress(filt[..], quality, hash);
    z := zlib;
    png := WriteFile(x, y, n, zlib, crc);
  }

  method WriteFile(x: nat, y: nat, n: nat, zlib: seq<byte>, crc: Crc) returns (out: array<byte>)
    requires 1 <= n <= 4
    ensures out[..] == FileBytes(x, y, n, zlib, crc)
  {
    out := new byte[8 + 12 + 13 + 12 + |zlib| + 12];
    var o := PutHead(out, x, y, n, crc);
    o := PutTail(out, o, zlib, crc);
    assert out[..] == out[..o];
  }

  method PutHead(out: array<byte>, x: nat, y: nat, n: nat, crc: Crc) returns (o: nat)
    requires 1 <= n <= 4 && 33 <= out.Length
    modifies out
    ensures o == 33 && out[..o] == PngFile.SIGNATURE + ChunkBytes(Tag('I', 'H', 'D', 'R'), HeaderBytes(x, y, n), crc)
  {
    o := Put(out, 0, PngFile.SIGNATURE);
    assert out[..o] == PngFile.SIGNATURE;
    o := PutChunk(out, o, Tag('I', 'H', 'D', 'R'), HeaderBytes(x, y, n), crc);
  }

  method PutTail(out: array<byte>, before: nat, zlib: seq<byte>, crc: Crc) returns (o: nat)
    requires before + 24 + |zlib| <= out.Length
    modifies out
    ensures o == before + 24 + |zlib|
    ensures out[..o]
         == old(out[..before]) + ChunkBytes(Tag('I', 'D', 'A', 'T'), zlib, crc)
            + ChunkBytes(Tag('I', 'E', 'N', 'D'), [], crc)
  {
    o := PutChunk(out, before, Tag('I', 'D', 'A', 'T'), zlib, crc);
    o := PutChunk(out, o, Tag('I', 'E', 'N', 'D'), [], crc);
  }

  /** The caller's pixels, from the origin on; a stride of zero means that the rows are packed. */
  function MemoryImage(pixels: seq<byte>, origin: nat, strideBytes: int, x: nat, y: nat, n: nat,
                       flip: bool): PngFilter.Image {
    PngFilter.Image(pixels, origin, if strideBytes == 0 then x * n else strideBytes, x * n, y, flip)
  }

  /** A file the writer may make of an image. */
  ghost predicate IsPng(file: seq<byte>, image: PngFilter.Image, x: nat, n: nat, crc: Crc, fts: seq<nat>, z: seq<byte>,
                        ts: seq<Lz77.Token>, cs: seq<Code>)
  {
    image.Valid() && 1 <= n <= 4 && image.w == Span(n, x) && |fts| == image.height && PngRows.AreFilters(fts)
    && Deflate.IsZlib(z, PngRows.Encoded(image, fts, n), ts, cs)
    && file == FileBytes(x, image.height, n, z, crc)
  }
}
