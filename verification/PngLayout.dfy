/** The PNG file byte by byte, the headers that the reader accepts, and where each component of each pixel comes back.
Clauses 5.2, 5.3 and 11.2.2 of the PNG specification. */
module PngLayout {
  import opened Bits
  import opened Spans
  import opened ByteReader
  import opened PngFile
  import opened PngWriter
  import opened PngRoundTrip
  import Adam7
  import InterlacedRoundTrip
  import PngFilter
  import PngRows
  import PngRowsRoundTrip

  // ----- The header -----

  /** The components that a colour type stands for: grey, colour, grey and alpha, colour and alpha. */
  function ComponentsOf(color: byte): nat {
    if color == 0 then 1 else if color == 2 then 3 else if color == 4 then 2 else if color == 6 then 4 else 0
  }

  /** The thirteen bytes of a header that the model goes on with: two sides of 1 to 2^24, most significant byte first,
  eight bits to a component, one of four colour types, and zeros but for the mark of interlacing; and 2^30 bytes of
  pixels at most. */
  lemma HeaderIsFine(s: seq<byte>, pos: nat)
    ensures var x, y, n := Big(s, pos), Big(s, pos + 4), ComponentsOf(At(s, pos + 9));
            CheckHeader(s, pos).Fine? <==>
              && 1 <= x <= 0x100_0000 && 1 <= y <= 0x100_0000 && At(s, pos + 8) == 8 && n > 0
              && At(s, pos + 10) == 0 && At(s, pos + 11) == 0 && At(s, pos + 12) <= 1
              && x * y * n <= 0x4000_0000
    ensures CheckHeader(s, pos).Fine? ==> Components(At(s, pos + 9)) == ComponentsOf(At(s, pos + 9))
  {
    Be32Is(s, pos);
    Be32Is(s, pos + 4);
    FormatIsFine(Big(s, pos), Big(s, pos + 4), At(s, pos + 8), At(s, pos + 9), At(s, pos + 10), At(s, pos + 11),
                 At(s, pos + 12), ComponentsOf(At(s, pos + 9)));
  }

  function Big(s: seq<byte>, i: nat): nat {
    At(s, i) * 0x100_0000 + At(s, i + 1) * 0x1_0000 + At(s, i + 2) * 0x100 + At(s, i + 3)
  }

  lemma FormatIsFine(x: nat, y: nat, depth: byte, color: byte, comp: byte, filter: byte, interlace: byte, n: nat)
    requires n == ComponentsOf(color)
    ensures CheckFormat(x, y, depth, color, comp, filter, interlace).Fine? <==>
              && x > 0 && y > 0 && depth == 8 && n > 0 && comp == 0 && filter == 0 && interlace <= 1
              && x * y * n <= 0x4000_0000
    ensures n > 0 ==> Components(color) == n
  {
    if n > 0 {
      SpanProduct(x, n, y);
      assert x * (n * y) == x * y * n;
    }
  }

  // ----- The file -----

  /** A written file: signature, header chunk, one chunk with the stream, and the end chunk. Numbers come with the most
  significant byte first, and a checksum is of the chunk's type and data. */
  lemma FileIs(x: nat, y: nat, n: nat, z: seq<byte>, crc: Crc)
    requires 1 <= n <= 4
    ensures var h := [73, 72, 68, 82] + BigBytes(x) + BigBytes(y)
                       + [8, if n == 1 then 0 else if n == 2 then 4 else if n == 3 then 2 else 6, 0, 0, 0];
            var d := [73, 68, 65, 84] + z;
            FileBytes(x, y, n, z, crc)
            == [137, 80, 78, 71, 13, 10, 26, 10]
               + ([0, 0, 0, 13] + h + BigBytes(crc(h)))
               + (BigBytes(|z|) + d + BigBytes(crc(d)))
               + ([0, 0, 0, 0] + [73, 69, 78, 68] + BigBytes(crc([73, 69, 78, 68])))
  {
    ChunkIs(Tag('I', 'H', 'D', 'R'), HeaderBytes(x, y, n), crc);
    ChunkIs(Tag('I', 'D', 'A', 'T'), z, crc);
    ChunkIs(Tag('I', 'E', 'N', 'D'), [], crc);
    TagsAre();
    HeaderIs(x, y, n);
    assert [73, 69, 78, 68] + [] == [73, 69, 78, 68];
    assert BigBytes(0) == [0, 0, 0, 0] && BigBytes(13) == [0, 0, 0, 13];
  }

  lemma TagsAre()
    ensures Tag('I', 'H', 'D', 'R') == [73, 72, 68, 82] && Tag('I', 'D', 'A', 'T') == [73, 68, 65, 84]
    ensures Tag('I', 'E', 'N', 'D') == [73, 69, 78, 68]
  {
  }

  lemma ChunkIs(tag: seq<byte>, data: seq<byte>, crc: Crc)
    requires |tag| == 4
    ensures ChunkBytes(tag, data, crc) == BigBytes(|data|) + (tag + data) + BigBytes(crc(tag + data))
  {
    assert Word(|data|) + tag + data == Word(|data|) + (tag + data);
  }

  lemma HeaderIs(x: nat, y: nat, n: nat)
    requires 1 <= n <= 4
    ensures [73, 72, 68, 82] + HeaderBytes(x, y, n)
         == [73, 72, 68, 82] + BigBytes(x) + BigBytes(y)
            + [8, if n == 1 then 0 else if n == 2 then 4 else if n == 3 then 2 else 6, 0, 0, 0]
  {
  }

  function BigBytes(v: nat): seq<byte> {
    [v / 0x100_0000 % 256, v / 0x1_0000 % 256, v / 0x100 % 256, v % 256]
  }

  // ----- The pixels -----

  lemma {:induction false} FlatAt(rows: seq<seq<byte>>, w: nat, r: nat, t: nat, at: nat)
    requires PngRows.AllWide(rows, w) && r < |rows| && t < w && at == Span(w, r) + t
    ensures at < |PngRowsRoundTrip.Flat(rows)| && PngRowsRoundTrip.Flat(rows)[at] == rows[r][t]
  {
    var m := |rows| - 1;
    PngRowsRoundTrip.FlatLength(rows[..m], w);
    if r < m {
      FlatAt(rows[..m], w, r, t, at);
    }
  }

  lemma {:induction false} RowsAt(image: PngFilter.Image, h: nat, r: nat)
    requires image.Valid() && r < h <= image.height
    ensures PngRowsRoundTrip.Rows(image, h)[r] == image.Row(r)
  {
    if r < h - 1 {
      RowsAt(image, h - 1, r);
    }
  }

  /** The place of a component in packed rows. */
  lemma PlaceIsPacked(x: nat, n: nat, i: nat, r: nat, k: nat)
    ensures Adam7.Place(x, n, i, r, k) == (r * x + i) * n + k
  {
    Adam7.PlaceIsProduct(x, n, i, r, k);
  }

  lemma FlatPixel(image: PngFilter.Image, x: nat, n: nat, i: nat, r: nat, k: nat, inRow: nat)
    requires image.Valid() && image.w == Span(n, x) && i < x && r < image.height && k < n && inRow == Span(n, i) + k
    ensures inRow < image.w
    ensures var pixels := PngRowsRoundTrip.Flat(PngRowsRoundTrip.Rows(image, image.height));
            Adam7.Place(x, n, i, r, k) < |pixels| && pixels[Adam7.Place(x, n, i, r, k)] == image.Row(r)[inRow]
  {
    SpanMonotone(n, i, x);
    SpanMonotone(n, i + 1, x);
    InterlacedRoundTrip.PlaceIsSum(x, n, i, r, k);
    RowsAt(image, image.height, r);
    FlatAt(PngRowsRoundTrip.Rows(image, image.height), image.w, r, inRow, Adam7.Place(x, n, i, r, k));
  }

  lemma RestoredAt(image: PngFilter.Image, x: nat, n: nat, outn: nat, i: nat, r: nat, k: nat, at: nat)
    requires image.Valid() && image.w == Span(n, x) && (outn == n || outn == n + 1)
    requires i < x && r < image.height && k < outn && at == Adam7.Place(x, outn, i, r, k)
    ensures at < |Restored(image, x, n, outn)|
    ensures k < n ==> Span(n, i) + k < image.w && Restored(image, x, n, outn)[at] == image.Row(r)[Span(n, i) + k]
    ensures k >= n ==> Restored(image, x, n, outn)[at] == 255
  {
    var rows := PngRowsRoundTrip.Rows(image, image.height);
    PngRowsRoundTrip.FlatLength(rows, image.w);
    SpanSpan(n, x, image.height);
    InterlacedRoundTrip.SpreadAtPlace(PngRowsRoundTrip.Flat(rows), x, image.height, n, outn, i, r, k);
    if k < n {
      FlatPixel(image, x, n, i, r, k, Span(n, i) + k);
    }
  }

  /** Component k of pixel i of row r is where the caller's memory has it, counting rows from the last when flipped, and
  255 for an alpha that was asked for. */
  lemma PixelIsBack(image: PngFilter.Image, x: nat, n: nat, reqComp: int, result: Loaded, i: nat, r: nat, k: nat,
                    at: nat, from: int)
    requires image.Valid() && image.w == Span(n, x) && IsBack(image, x, n, reqComp, result) && result.Image?
    requires i < x && r < image.height && k < result.outn && at == (r * x + i) * result.outn + k
    requires from == image.origin + image.stride * (if image.flip then image.height - 1 - r else r) + i * n + k
    ensures at < |result.pixels|
    ensures k < n ==> 0 <= from < |image.pixels| && result.pixels[at] == image.pixels[from]
    ensures k >= n ==> result.pixels[at] == 255
  {
    BackPixels(image, x, n, reqComp, result);
    PlaceIsPacked(x, result.outn, i, r, k);
    RestoredAt(image, x, n, result.outn, i, r, k, at);
    if k < n {
      ComponentAddress(image, r, i, n, k, from, Span(n, i) + k);
      RowByte(image, r, Span(n, i) + k, from);
    }
  }

  lemma BackPixels(image: PngFilter.Image, x: nat, n: nat, reqComp: int, result: Loaded)
    requires image.Valid() && image.w == Span(n, x) && IsBack(image, x, n, reqComp, result) && result.Image?
    ensures result.outn == n || result.outn == n + 1
    ensures result.pixels == Restored(image, x, n, result.outn)
  {
  }

  lemma ComponentAddress(image: PngFilter.Image, r: nat, i: nat, n: nat, k: nat, from: int, t: nat)
    requires r < image.height && t == Span(n, i) + k
    requires from == image.origin + image.stride * (if image.flip then image.height - 1 - r else r) + i * n + k
    ensures from == image.Base(r) + t
  {
    SpanIsProduct(n, i);
  }

  lemma RowByte(image: PngFilter.Image, r: nat, t: nat, from: int)
    requires image.Valid() && r < image.height && t < image.w && from == image.Base(r) + t
    ensures 0 <= from < |image.pixels| && image.Row(r)[t] == image.pixels[from]
  {
    image.InBounds(r);
  }
}
