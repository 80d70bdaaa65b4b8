# Codecs, queues and pipelines of the repository, verified

A Dafny model of the repository's algorithmic cores, with proofs. `dafny verify dfyconfig.toml` checks all of it.

**Images** (`graph_viewer`). The PNG writer and reader are modelled from the pixels in memory to the bytes of the
file and back: row filters (`PngFilter`, `PngRows`, `PngPixels`), the LZ77 search, the fixed Huffman code and the
bit packing (`Lz77`, `FixedCode`, `Deflate`, `Adler`), the format's numbers by arithmetic (`DeflateNumbers`),
canonical Huffman tables (`Canonical`, `Huffman`), the decompressor (`Inflate`) against the meaning of stored,
fixed and self-described blocks (`BlockFormat`, `BlockRuns`, `FixedTables`, `CodeWords`) and when they end
(`BlockEnds`, `EndlessStreams`), chunks and limits (`PngFile`, `PngWriter`, `PngReader`), interlacing (`Adam7`).
Each layer has its own round trip: `CodedBlocks`, `OwnCodes` and `BlockStreams` for any conforming stream,
`ZlibRoundTrip` for the compressor's, `PngRowsRoundTrip` for rows, `InterlacedRoundTrip` for interlaced data;
`PngRoundTrip` composes them, `PngChunks` extends that to streams in any number of chunks, and `PngLayout` says
where each byte of the file and of the pixels is. A stream of bits is a natural number (`Bits`), so that a reader
that runs past the last byte reads zeros as the code does. The GIF raster decoder is split into the dictionary
(`GifLzw`), the code table that stands for it (`GifTable`), the painting order (`GifCursor`, `GifPaint`) and the
decoder (`Gif`); `GifTextbook` is an independent decoder after Appendix F of the GIF89a specification, and
`GifRaster` says how far the two agree; `GifEncoder` has the encoders of that appendix, and what they write is read
back. TGA and Radiance HDR run-length coding are in `Tga`, `TgaImage`, `Hdr` and `HdrScanline`.

**JSON** (picojson). `JsonValue` and `JsonParser` define the text of a value and what a text means; `JsonWriter`
and `JsonReader` are the program's serializer and parser, and `JsonRoundTrip` relates the two. `JsonStrings` and
`JsonGrammar` are the grammar itself, as a syntax with a meaning: the parser accepts its texts and no others.

**Server.** `Monitor` is the connection queue's protocol as a transition system over any number of threads with
explicit waits, signals, broadcasts and spurious wake-ups; `Ring` is its buffer, `ConnectionQueue` the code, whose
sections are proved to be steps of the protocol. `Server` adds the workers and the main thread, `Barrier` the
barrier before file openings. Capacity, number of threads and degree are arbitrary.

**Shell.** `StringVector` and `Pipeline` model the pipeline builder over descriptor tables of the shell and its
children.

A class stands for state that the program updates in place; its methods are proved against functions of the inputs
or the old state, and the lemmas are about those functions. `Sequences`, `Spans` and `ByteReader` are shared
helpers.

## Findings

- A grey image of exactly 2^30 pixels passes the reader's limit, but asking for alpha makes its output one byte too
  large for an int, and the load fails as out of memory (`PngRoundTrip.PngRoundTrip`, the only such case).
- The GIF decoder keeps adding entries after 4096 and gives up at 8192. An encoder may by the standard defer the
  clear code for ever; such a raster is refused once a run of codes for strings after a clear code reaches 8192
  less the clear code, and only then (`GifRaster.RasterIsTextbook`; `GifRaster.RasterRefusesLongRun` gives a
  raster).
- A back reference with distance symbol 30 or 31 has distance 0, passes the test for bad distances, and copies
  bytes of the output buffer that were never written onto themselves (stb_image.h:4145-4163). `BlockFormat` says
  NoDistance there; it differs from the code exactly when such a reference with a length above zero is reached
  (`BlockFormat.ZeroDistance`; `BlockRuns.NoDistanceInput` gives a block). The length symbols 286 and 287 have
  length 0 and copy nothing, in the model and in the code.
- A block that brings its own codes need not end: past the end of the input the reader supplies zero bits for ever
  (stb_image.h:4033-4049, 4129-4165). Zeros stand for the first symbol with the shortest code
  (`CodeWords.ZerosDecode`); let z be that of the symbols and d that of the distances. Every block in these codes
  ends if and only if there is no z, or z is the end mark, or z is a length symbol and there is no d, or d is 30 or
  31 and the length is above zero (`BlockEnds.EveryBlockEnds`). In all other codes a block whose bits are used up
  goes on for ever, unless z is a length symbol and the distance reaches back beyond the output
  (`BlockEnds.ZerosNeverEnd`): every turn adds a byte or the length, until an allocation fails, but with the length
  symbols 286 and 287, which have length 0, nothing changes any more (`BlockEnds.ZeroTurn`). `BlockFormat` says
  NeverEnds there, and `BlockRuns.BlockIsRun` proves that this is said exactly of the blocks whose loop does not
  end. `EndlessStreams.NeverEndsInput` gives the bytes of a stream. Where d is 30 or 31 the model stops with
  NoDistance, as above; the code copies and goes on. Fixed blocks always end.
- For an interlaced image the code does not test the allocation of the output (stb_image.h:4700) and would write
  through a null pointer when it fails. Within the limits the size check of that allocation fails for one size
  only: one component, two asked for, and exactly 2^30 pixels (`PngRoundTrip.RowFits`). The model's result is
  Unmodelled there.
- The nesting limit of the JSON parser counts arrays only: entering an object tests the depth but does not lower it
  (picojson.h:1013-1017), so objects may nest without limit.
- A queue that is shut down still drains, and still takes values while it is not full; the header comments of
  connection_queue.h promise an error instead. The model follows the code.
- With descriptor 0 open and 1 closed `pipe` hands out 1 as a read end (swish_funcs.c:97), which the last command
  keeps as its standard output; every other command is wired rightly, and with descriptor 0 closed, or both, all
  are (`Pipeline.WiredUnlessTaken`; `Pipeline.ClosedOutput` gives a case). The ends of all pipes are held rightly
  always (`Pipeline.PipesJoinNeighbours`).

## Model

| member | source | states |
|---|---|---|
| `PngRoundTrip.PngRoundTrip` | Uber Transit Simulation/apps/graph_viewer/src/stb_image.h:4879-5051 | Reading a file that the writer made: for every image of 1 to 4 components within the limits, every stride, origin and orientation, every choice of filters and matches, the pixels come back exactly, with 255 after each when alpha is asked for; only a grey image of exactly 2^30 pixels with alpha asked for is refused as out of memory. Outside the limits, while the writer's own sizes fit an int, the reader names the error |
| `PngRoundTrip.LimitsAreInRange` | Uber Transit Simulation/apps/graph_viewer/src/stb_image_write.h:1074-1127 | Within the reader's limits the writer's sizes (filtered rows, file) fit an int whatever the compressor chose, if the stride does |
| `PngRoundTrip.SaveAndLoad` | Uber Transit Simulation/apps/graph_viewer/src/stb_image_write.h:1074-1158 | The program itself, with any number of components asked for: writing and then parsing gives the caller's rows back, packed, with one more component exactly when n + 1 are asked for and n is 1, 3 or 4; it fails for n = 1, two asked for and 2^30 pixels only |
| `PngRoundTrip.HeaderReads` | Uber Transit Simulation/apps/graph_viewer/src/stb_image.h:4903-4931 | A written header passes exactly when both sides and the whole image are within the limits, and which error it gives otherwise |
| `PngRoundTrip.ChunksRead` | Uber Transit Simulation/apps/graph_viewer/src/stb_image.h:4879-4995 | The chunk loop over a written file ends with exactly the zlib stream collected, or stops with the header's error |
| `PngRoundTrip.StreamFits` | Uber Transit Simulation/apps/graph_viewer/src/stb_image.h:4969-4988 | Within the limits the compressed data fit the int that counts them |
| `PngRoundTrip.RowFits` | Uber Transit Simulation/apps/graph_viewer/src/stb_image.h:4484-4497 | The row check never fails within the limits; the output allocation fails exactly for a grey image of 2^30 pixels with alpha |
| `PngFile.LimitByDivision` | Uber Transit Simulation/apps/graph_viewer/src/stb_image.h:4919-4920 | The limit that is computed by two truncating divisions is exactly: components times width times height is at most 2^30 |
| `PngReader.Png.ParsePngFile` | Uber Transit Simulation/apps/graph_viewer/src/stb_image.h:4879-5051 | The parser with its cursor and fields gives what the function of the file gives, error by error; `PngChunks.FileLoads` says what that is for any list of chunks |
| `PngChunks.FileLoads` | Uber Transit Simulation/apps/graph_viewer/src/stb_image.h:4879-5051 | Signature, header, any list of image data chunks, palettes and ancillary chunks in any order, and an end chunk: if the header passes and an int holds their total length, the image data that are inflated are those of all data chunks in the order of the file; otherwise the header's error or the overflow |
| `PngChunks.PiecesRead` | Uber Transit Simulation/apps/graph_viewer/src/stb_image.h:4969-4987 | The chunk loop over any such list, from any state: it reaches their end with their image data put after those it had, or stops with the overflow exactly when the whole is too long for an int |
| `PngChunks.OnePiece` | Uber Transit Simulation/apps/graph_viewer/src/stb_image.h:4969-5050 | One such chunk: image data are put at the end of those so far, and nothing else touches them |
| `PngChunks.SplitRoundTrip` | Uber Transit Simulation/apps/graph_viewer/src/stb_image.h:4879-5051 | Any image the writer may make comes back from every file that has its stream cut into data chunks, with other chunks before, between and after them |
| `PngChunks.UnknownPiece` | Uber Transit Simulation/apps/graph_viewer/src/stb_image.h:5031-5046 | A chunk of unknown type, with a length that an int holds, is passed if bit 5 of the first byte of its type is set, and otherwise is the error for unknown chunks |
| `PngChunks.HeaderFirst` | Uber Transit Simulation/apps/graph_viewer/src/stb_image.h:4903-4906 | A chunk before the header, or a second header, is refused |
| `PngLayout.HeaderIsFine` | Uber Transit Simulation/apps/graph_viewer/src/stb_image.h:4903-4931 | The headers that the model goes on with, byte by byte: sides of 1 to 2^24, eight bits, colour type 0, 2, 4 or 6, zeros but for the mark of interlacing, at most 2^30 bytes |
| `PngLayout.PixelIsBack` | Uber Transit Simulation/apps/graph_viewer/src/stb_image.h:4478-4600 | Component k of pixel i of row r of the loaded image is the byte of the caller's memory for that component, rows counted from the last when flipped, and 255 for the alpha asked for |
| `PngLayout.FileIs` | Uber Transit Simulation/apps/graph_viewer/src/stb_image_write.h:1128-1155 | The bytes of a written file in numbers: lengths, types, header fields by component count, and a checksum of type and data after each chunk |
| `PngReader.Png.ReadChunk` | Uber Transit Simulation/apps/graph_viewer/src/stb_image.h:4890-5050 | One chunk with its length, type and skipped checksum, in any state of the parse |
| `PngReader.Deinterlace` | Uber Transit Simulation/apps/graph_viewer/src/stb_image.h:4690-4732 | An interlaced image: seven sub-images decoded one after the other and scattered, or the first error |
| `PngReader.CreateRaw` | Uber Transit Simulation/apps/graph_viewer/src/stb_image.h:4478-4600 | The rows of an 8-bit image: decoded if and only if there are enough data and every filter is known |
| `PngWriter.WritePng` | Uber Transit Simulation/apps/graph_viewer/src/stb_image_write.h:1074-1158 | The bytes written are signature, header, data and end chunk around a zlib stream of the filtered rows, for some choice of a filter for each row |
| `PngRows.FilterImage` | Uber Transit Simulation/apps/graph_viewer/src/stb_image_write.h:1092-1122 | The filtered rows are the lines of the image under one filter each, which is the forced one if there is one |
| `PngRows.ChooseFilter` | Uber Transit Simulation/apps/graph_viewer/src/stb_image_write.h:1100-1118 | The filter chosen has the least sum of absolute values, the first of equals, and the line buffer holds its line |
| `PngFilter.EncodeLine` | Uber Transit Simulation/apps/graph_viewer/src/stb_image_write.h:1038-1072 | The line encoder, with its substitutes for the first pixel and the first row and its reads relative to the current byte, is the filter of the PNG specification with zeros outside the image; `PngFilter.FilteredByte` gives each byte |
| `PngFilter.Paeth` | Uber Transit Simulation/apps/graph_viewer/src/stb_image.h:4464-4473 | The predictor is one of its three arguments, none is nearer to a + b - c, and of equally near ones a comes before b and b before c |
| `PngFilter.FilteredByte` | Uber Transit Simulation/apps/graph_viewer/src/stb_image_write.h:1038-1072 | Byte i of a filtered row is the byte less its prediction modulo 256: nothing, left, above, their average rounded down, or the nearest of the three, with zeros outside the image |
| `PngFilter.RebuiltByte` | Uber Transit Simulation/apps/graph_viewer/src/stb_image.h:4504-4589 | Byte i of a rebuilt row is the filtered byte plus that prediction from the rebuilt bytes, modulo 256 |
| `PngRows.EstimateIs` | Uber Transit Simulation/apps/graph_viewer/src/stb_image_write.h:1104-1110 | The measure of a line grows with each byte by the byte's distance from zero modulo 256 |
| `PngFilter.AboveAddress` | Uber Transit Simulation/apps/graph_viewer/src/stb_image_write.h:1043-1045 | One signed stride back from a row, flipped or not, is the row written before it |
| `PngFilter.FlipNegatesStride` | Uber Transit Simulation/apps/graph_viewer/src/stb_image_write.h:1044-1045 | Writing bottom up is writing with the stride negated from the last row on |
| `PngFilter.LineUnfilters` | Uber Transit Simulation/apps/graph_viewer/src/stb_image.h:4504-4589 | Reconstruction modulo 256 from the reconstructed row above inverts the filter, whatever its type |
| `PngPixels.DecodeRows` | Uber Transit Simulation/apps/graph_viewer/src/stb_image.h:4504-4600 | The reader's row loop, in place in the output, gives the reconstructed rows, or refuses exactly when some filter number is above 4 |
| `PngPixels.DecodeRow` | Uber Transit Simulation/apps/graph_viewer/src/stb_image.h:4516-4592 | One row in place, plain or with an alpha byte after every pixel, with the reader's first-pixel and first-row cases |
| `PngRowsRoundTrip.RowsRoundTrip` | Uber Transit Simulation/apps/graph_viewer/src/stb_image.h:4504-4589 | Every row of a filtered image is reconstructed, whatever filters were chosen |
| `PngRowsRoundTrip.LaidAlpha` | Uber Transit Simulation/apps/graph_viewer/src/stb_image.h:4572-4589 | The alpha branch gives the plain branch's output with 255 put in after every pixel |
| `PngRowsRoundTrip.ImageRoundTrip` | Uber Transit Simulation/apps/graph_viewer/src/stb_image.h:4478-4600 | The whole image comes back from its filtered rows, plain or with opaque alpha |
| `Adam7.PassAreas` | Uber Transit Simulation/apps/graph_viewer/src/stb_image.h:4700-4710 | The sizes of the seven passes add up to width times height |
| `Adam7.PassUnique` | Uber Transit Simulation/apps/graph_viewer/src/stb_image.h:4714-4722 | No two places in the passes are the same pixel |
| `Adam7.PassCovers` | Uber Transit Simulation/apps/graph_viewer/src/stb_image.h:4700-4722 | Every pixel is a place of one pass, inside that pass's computed size |
| `Adam7.PassIsPattern` | Uber Transit Simulation/apps/graph_viewer/src/stb_image.h:4702-4705 | The pass of every pixel is that of the specification's eight by eight pattern |
| `Adam7.Scatter` | Uber Transit Simulation/apps/graph_viewer/src/stb_image.h:4716-4724 | Scattering a pass in place writes exactly that pass's pixels and leaves the others |
| `Adam7.ScatterWeaves` | Uber Transit Simulation/apps/graph_viewer/src/stb_image.h:4700-4728 | After all seven passes every pixel holds the bytes of its place in its pass |
| `Adam7.InterlaceRoundTrip` | Uber Transit Simulation/apps/graph_viewer/src/stb_image.h:4700-4728 | Passes taken from an image and scattered give the image back |
| `InterlacedRoundTrip.DecodesInterlaced` | Uber Transit Simulation/apps/graph_viewer/src/stb_image.h:4690-4732 | The pixels of the seven passes of any image within the limits, filtered in any way and one pass after the other, decode to the image, plain or with 255 after every pixel; only the one size of the untested allocation ends as Unmodelled |
| `InterlacedRoundTrip.InterlacedRoundTrip` | Uber Transit Simulation/apps/graph_viewer/src/stb_image.h:4995-5030 | The same from the compressed data on, for any zlib stream that inflates to those rows and any number of components asked for |
| `InterlacedRoundTrip.PassPixelsAt` | Uber Transit Simulation/apps/graph_viewer/src/stb_image.h:4714-4724 | Every component of a pixel of a pass comes from that pixel's place in the image |
| `ZlibRoundTrip.ZlibRoundTrip` | Uber Transit Simulation/apps/graph_viewer/src/stb_image.h:4126-4166 | Inflating any stream the compressor may produce, whatever matches its search picked, gives the data back: its tokens are symbols in the fixed codes |
| `ZlibRoundTrip.CompressAndDecompress` | Uber Transit Simulation/apps/graph_viewer/src/stb_image_write.h:858-968 | The program itself: for all data, every quality and any hash function |
| `Deflate.Compress` | Uber Transit Simulation/apps/graph_viewer/src/stb_image_write.h:884-941 | The compressor's output is a zlib stream of tokens that expand to the data: each match has length 3 to 258 and distance 1 to 32767 and copies the right bytes, also when it overlaps itself; it begins with 78 5e, and its last four bytes, most significant first, are the Adler-32 of the data in closed form: 65536 times the length plus the sum of (length - i) data[i], modulo 65521, plus one more than the sum of the bytes, modulo 65521 |
| `Deflate.FindBest` | Uber Transit Simulation/apps/graph_viewer/src/stb_image_write.h:889-897 | The chain search finds no match, or one inside the window whose bytes agree |
| `Deflate.CountMatch` | Uber Transit Simulation/apps/graph_viewer/src/stb_image_write.h:822-828 | The length of the common part, at most 258, and maximal |
| `Deflate.EmitMatch` | Uber Transit Simulation/apps/graph_viewer/src/stb_image_write.h:919-930 | A match is written as length code, extra bits, reversed distance code, extra bits |
| `Deflate.BitWriter.Add` | Uber Transit Simulation/apps/graph_viewer/src/stb_image_write.h:802-844 | Appending bits: what has been written grows by exactly those bits, and the buffer stays below a byte |
| `Deflate.BitWriter.Pad` | Uber Transit Simulation/apps/graph_viewer/src/stb_image_write.h:939-941 | Zero bits up to the next whole byte |
| `FixedCode.FindSlot` | Uber Transit Simulation/apps/graph_viewer/src/stb_image_write.h:923-926 | The scan over the table ends at the slot of a length or distance, whose extra bits hold the rest |
| `Lz77.CopyOfMatch` | Uber Transit Simulation/apps/graph_viewer/src/stb_image_write.h:822-828 | Bytes that agree at comparison are what the decoder's overlapping copy makes |
| `ZlibSize.StreamSize` | Uber Transit Simulation/apps/graph_viewer/src/stb_image_write.h:884-945 | A bound for the size of the stream from the size of the data |
| `Adler.SumBlock` | Uber Transit Simulation/apps/graph_viewer/src/stb_image_write.h:953-954 | A block of at most 5552 bytes keeps both accumulators below 2^32 and gives the byte-by-byte sums modulo 65521 |
| `Adler.Checksum` | Uber Transit Simulation/apps/graph_viewer/src/stb_image_write.h:947-957 | The blockwise loop gives the sums of section 2.2 of RFC 1950 and ends, although its first block may be empty |
| `Adler.SumsAre` | Uber Transit Simulation/apps/graph_viewer/src/stb_image_write.h:947-957 | The two running sums in closed form: one plus the sum of the bytes, and the length plus the sum of every byte as often as there are bytes from it on, modulo 65521 |
| `Deflate.StreamEnds` | Uber Transit Simulation/apps/graph_viewer/src/stb_image_write.h:945-961 | Every stream of the compressor's form begins with 78 5e and ends with that checksum, the weighted sum first, high bytes first |
| `DeflateNumbers.LengthBitsAre` | Uber Transit Simulation/apps/graph_viewer/src/stb_image.h:4117-4118 | Length symbol 257 + j has no extra bits for j below 4 and for 28, and otherwise (j - 4) / 4; the writer's table agrees |
| `DeflateNumbers.LengthStartsAre` | Uber Transit Simulation/apps/graph_viewer/src/stb_image.h:4112-4115 | The least length of that symbol: 3 + j below 4, 258 for 28, and otherwise 3 + 2^((j - 4) / 4) (4 + j mod 4); 0 for the two without a meaning |
| `DeflateNumbers.DistanceBitsAre` | Uber Transit Simulation/apps/graph_viewer/src/stb_image.h:4123-4124 | Distance symbol k has no extra bits for k below 2, and otherwise (k - 2) / 2; the writer's table agrees |
| `DeflateNumbers.DistanceStartsAre` | Uber Transit Simulation/apps/graph_viewer/src/stb_image.h:4120-4121 | The least distance of that symbol: 1 + k below 2, otherwise 1 + 2^((k - 2) / 2) (2 + k mod 2); 0 for 30 and 31 |
| `DeflateNumbers.LengthSlotsMeet` | Uber Transit Simulation/apps/graph_viewer/src/stb_image_write.h:864-865 | Each length slot below the last but one ends where the next begins |
| `DeflateNumbers.DistanceSlotsMeet` | Uber Transit Simulation/apps/graph_viewer/src/stb_image_write.h:866-867 | Each distance slot ends where the next begins |
| `DeflateNumbers.SlotsEnd` | Uber Transit Simulation/apps/graph_viewer/src/stb_image_write.h:864-867 | The last slots end with length 258, which has a symbol of its own, and distance 32768 |
| `DeflateNumbers.MatchBitsAre` | Uber Transit Simulation/apps/graph_viewer/src/stb_image_write.h:923-928 | The bits of a match by this arithmetic: the length's symbol, the length less the least of its symbol, the distance symbol in five bits, highest first, the distance less its least; symbol 285 for length 258 and no other |
| `Huffman.Table.Build` | Uber Transit Simulation/apps/graph_viewer/src/stb_image.h:3969-4014 | The builder accepts exactly the lists of lengths in which every length has room for its codes, and then all tables are right |
| `Huffman.Table.Lookup` | Uber Transit Simulation/apps/graph_viewer/src/stb_image.h:4061-4091 | Fast table and slow path return symbol v and its length exactly when the stream starts with v's canonical code, and -1 when it starts with none |
| `Huffman.Table.FillFast` | Uber Transit Simulation/apps/graph_viewer/src/stb_image.h:4003-4009 | No two symbols share a slot of the fast table: entering one disturbs no other |
| `Huffman.SlotsDistinct` | Uber Transit Simulation/apps/graph_viewer/src/stb_image.h:3998-4002 | The places in the symbol table are in range and different |
| `Huffman.BitReverse16IsRev` | Uber Transit Simulation/apps/graph_viewer/src/stb_image.h:3952-3959 | Exchanging neighbouring bits, pairs, nibbles and bytes reverses sixteen bits |
| `Canonical.PrefixFree` | Uber Transit Simulation/apps/graph_viewer/src/stb_image.h:3984-4010 | A stream starts with the code of at most one symbol |
| `Canonical.AcceptedIffKraft` | Uber Transit Simulation/apps/graph_viewer/src/stb_image.h:3984-3996 | A list of lengths is accepted exactly when it satisfies Kraft's inequality |
| `Inflate.Zbuf.FillBits` | Uber Transit Simulation/apps/graph_viewer/src/stb_image.h:4042-4049 | Refilling the 32-bit buffer changes nothing in the stream to come, with zeros past the end of the input |
| `Inflate.Zbuf.Receive` | Uber Transit Simulation/apps/graph_viewer/src/stb_image.h:4051-4059 | The next bits of the stream, removed from it |
| `Inflate.Zbuf.Decode` | Uber Transit Simulation/apps/graph_viewer/src/stb_image.h:4079-4091 | The symbol the stream starts with, removed from it |
| `Inflate.Zbuf.CopyBack` | Uber Transit Simulation/apps/graph_viewer/src/stb_image.h:4156-4163 | Both copy loops, the one for runs of one byte too, are the byte-by-byte overlapping copy |
| `Inflate.Zbuf.ParseHuffmanBlock` | Uber Transit Simulation/apps/graph_viewer/src/stb_image.h:4126-4166 | For any two tables that have been built: one block up to its end marker or the first error, as a function of the stream; NeverEnds where the loop does not end; `DeflateNumbers.NextItemIs` gives each of its items |
| `DeflateNumbers.NextItemIs` | Uber Transit Simulation/apps/graph_viewer/src/stb_image.h:4129-4151 | The next item for any codes and any bits: a byte, the end, or a length and a distance that are the least of their symbols plus as many bits as they have, as remainders of the stream; the length's extra bits come before the distance symbol |
| `DeflateNumbers.FirstBlockIs` | Uber Transit Simulation/apps/graph_viewer/src/stb_image.h:4295-4312 | A block begins with one bit for the last one and two of type, 0 stored, 1 fixed, 2 with its own codes, 3 an error |
| `DeflateNumbers.StoredIs` | Uber Transit Simulation/apps/graph_viewer/src/stb_image.h:4217-4245 | A stored block is complete exactly when its length stands there, low byte first, and again with all bits inverted, and as many bytes follow |
| `DeflateNumbers.CountsAre` | Uber Transit Simulation/apps/graph_viewer/src/stb_image.h:4176-4178 | The three counts as remainders of the stream: 257 and five bits, 1 and five bits, 4 and four bits |
| `DeflateNumbers.OrderIs` | Uber Transit Simulation/apps/graph_viewer/src/stb_image.h:4170 | The order of the sizes by arithmetic: 16, 17, 18, 0, and then outwards from 8 |
| `DeflateNumbers.SizeIs` | Uber Transit Simulation/apps/graph_viewer/src/stb_image.h:4181-4185 | Three bits for each size, stored at its symbol in that order |
| `DeflateNumbers.RepeatsAre` | Uber Transit Simulation/apps/graph_viewer/src/stb_image.h:4191-4205 | The repetitions: the last length 3 to 6 times by two bits, zeros 3 to 10 times by three bits or 11 to 138 times by seven |
| `DeflateNumbers.ListsAre` | Uber Transit Simulation/apps/graph_viewer/src/stb_image.h:4210-4214 | The lengths of the symbols come first in the list and those of the distances after them |
| `DeflateNumbers.HeadersAre` | Uber Transit Simulation/apps/graph_viewer/src/stb_image.h:4246-4257 | The headers that are accepted: method 8, no dictionary, and check bits that fit the window and the level |
| `DeflateNumbers.HeadersOf32K` | Uber Transit Simulation/apps/graph_viewer/src/stb_image.h:4246-4257 | After 78 the second byte may be 01, 5e, 9c or da and no other |
| `Inflate.Zbuf.ParseStored` | Uber Transit Simulation/apps/graph_viewer/src/stb_image.h:4217-4245 | A stored block, its header partly in the bit buffer: the bytes after the header at the next whole byte of the input, or which error, and where reading goes on |
| `Inflate.Zbuf.ComputeHuffmanCodes` | Uber Transit Simulation/apps/graph_viewer/src/stb_image.h:4168-4215 | The tables of a block that brings its own codes: counts, sizes in their order, run-length coded lengths up to the total, two accepted lists and their tables, or which error |
| `Inflate.Zbuf.ParseZlib` | Uber Transit Simulation/apps/graph_viewer/src/stb_image.h:4288-4314 | Header and blocks of all three kinds, as a function of the input; the loop over blocks ends for every input |
| `BlockFormat.BodyProgress` | Uber Transit Simulation/apps/graph_viewer/src/stb_image.h:4295-4313 | Every block but the last leaves a smaller stream: past the last set bit the reader can only find a stored block whose header is wrong |
| `BlockFormat.ZeroDistance` | Uber Transit Simulation/apps/graph_viewer/src/stb_image.h:4121-4124 | A back reference has distance zero exactly for the distance symbols 30 and 31, in any codes |
| `BlockFormat.FirstByte` | Uber Transit Simulation/apps/graph_viewer/src/stb_image.h:4042-4049 | Bits 8 q to 8 q + 7 of the stream are byte q of the input, lowest bit first |
| `BlockRuns.BlockIsRun` | Uber Transit Simulation/apps/graph_viewer/src/stb_image.h:4126-4166 | A block's meaning is the outcome of its loop item by item; it is NeverEnds if and only if the loop is still going after every number of turns |
| `CodeWords.ZerosDecode` | Uber Transit Simulation/apps/graph_viewer/src/stb_image.h:4061-4091 | Zero bits stand for the first symbol with the shortest code, or for nothing if there is no code |
| `BlockEnds.EveryBlockEnds` | Uber Transit Simulation/apps/graph_viewer/src/stb_image.h:4126-4166 | In given codes every block ends, from any bits and after any output, if and only if zeros stand for nothing, for the end mark, or for a length whose distance is missing or, when the length is above zero, is one of the two without a meaning |
| `BlockEnds.ZerosNeverEnd` | Uber Transit Simulation/apps/graph_viewer/src/stb_image.h:4126-4166 | When the bits are used up, a block goes on for ever if and only if zeros do not stop it and their distance lies inside the output |
| `BlockEnds.ZeroTurn` | Uber Transit Simulation/apps/graph_viewer/src/stb_image.h:4129-4165 | A turn over zero bits goes on under that condition, and then adds one byte or the length, which leaves the output as it is when the length is 0 |
| `BlockEnds.FixedBlockEnds` | Uber Transit Simulation/apps/graph_viewer/src/stb_image.h:4126-4166 | A block in the fixed codes always ends |
| `EndlessStreams.HeadAloneReads` | Uber Transit Simulation/apps/graph_viewer/src/stb_image.h:4288-4314 | For any head of a block that brings its codes: the zlib stream of that head alone is read for ever if and only if zeros go on from an empty output |
| `EndlessStreams.NeverEndsInput` | Uber Transit Simulation/apps/graph_viewer/src/stb_image.h:4168-4215 | The bytes of a stream that the program reads for ever |
| `BlockRuns.NoDistanceInput` | Uber Transit Simulation/apps/graph_viewer/src/stb_image.h:4145-4163 | A fixed block that starts with the first length symbol and distance symbol 30 copies bytes onto themselves |
| `CodedBlocks.BlockReads` | Uber Transit Simulation/apps/graph_viewer/src/stb_image.h:4126-4166 | Symbols written in any accepted codes, with an end mark, are read back as the bytes they add |
| `OwnCodes.HeadReads` | Uber Transit Simulation/apps/graph_viewer/src/stb_image.h:4168-4215 | A head that run-length codes two lists of lengths in any way is read back as those two lists |
| `BlockStreams.PartsRead` | Uber Transit Simulation/apps/graph_viewer/src/stb_image.h:4295-4313 | Blocks of all three kinds one after the other, stored ones at whole bytes after any filling bits, are read back as what they hold, and reading ends after the last |
| `BlockStreams.StreamReads` | Uber Transit Simulation/apps/graph_viewer/src/stb_image.h:4288-4326 | The same for a whole zlib stream with an accepted header, whatever follows the last block |
| `FixedTables.FixedCodeOf` | Uber Transit Simulation/apps/graph_viewer/src/stb_image_write.h:846-852 | The writer's four ranges of codes are the canonical codes of the reader's fixed lengths |
| `FixedTables.FixedAccepted` | Uber Transit Simulation/apps/graph_viewer/src/stb_image.h:4304-4306 | The builder accepts both fixed lists, so its error branches cannot be taken there |
| `GifRaster.RasterIsTextbook` | Uber Transit Simulation/apps/graph_viewer/src/stb_image.h:6416-6499 | For minimum code sizes 2 to 8 a raster gives the strings of the textbook decoder of Appendix F; it is complete exactly when those end without an error and no run of codes for strings reaches 8192 less the clear code; then it is TooManyCodes, after a first part of the strings |
| `GifTextbook.DecoderIsTextbook` | Uber Transit Simulation/apps/graph_viewer/src/stb_image.h:6454-6497 | The same for the codes in any bits: widths from the length of the next number, additions frozen at 4096, no limit on deferring the clear code |
| `GifEncoder.EncodedRasterReads` | Uber Transit Simulation/apps/graph_viewer/src/stb_image.h:6416-6499 | Whatever an encoder with the dictionary of Appendix F sends for some data, any of the strings that the data go on with or a clear code at each turn, in data blocks and with any bits after the end code: the program's decoder gives the data back if and only if fewer than 8192 less the clear code strings come between any two clear codes, and otherwise refuses the raster after a first part of the data |
| `GifEncoder.StandardRasterReads` | Uber Transit Simulation/apps/graph_viewer/src/stb_image.h:6416-6499 | For all data the raster of the encoder that always takes the longest string, and a clear code when the dictionary is full, is read back |
| `GifEncoder.TimelyIsShort` | Uber Transit Simulation/apps/graph_viewer/src/stb_image.h:6473-6476 | An encoder that sends no string with a full dictionary never runs into that limit |
| `GifEncoder.SendReads` | Uber Transit Simulation/apps/graph_viewer/src/stb_image.h:6466-6497 | The decoder, one string behind the encoder, takes each code for the same string, also the one that it is about to learn, and both dictionaries stay the same |
| `GifTextbook.DecoderRefusesLongRun` | Uber Transit Simulation/apps/graph_viewer/src/stb_image.h:6473-6476 | Codes in any large enough number of bits that are right by the textbook and refused by the decoder |
| `GifRaster.RasterRefusesLongRun` | Uber Transit Simulation/apps/graph_viewer/src/stb_image.h:6416-6499 | A raster, in data blocks, whose strings are right by the textbook and which the program refuses |
| `GifRaster.BlocksAreRead` | Uber Transit Simulation/apps/graph_viewer/src/stb_image.h:6441-6452 | A payload of any length put into data blocks is read back |
| `GifTextbook.WidthRule` | Uber Transit Simulation/apps/graph_viewer/src/stb_image.h:6488-6491 | The mask test widens the codes exactly when the next number needs one more bit, up to twelve |
| `Gif.Decoder.RenderFrame` | Uber Transit Simulation/apps/graph_viewer/src/stb_image.h:6570-6623 | A frame that does not fit the canvas is refused and nothing painted; any other is painted with the raster's strings along its painting order, and how it ends |
| `Gif.Decoder.ProcessRaster` | Uber Transit Simulation/apps/graph_viewer/src/stb_image.h:6416-6499 | Unpacking codes across blocks and taking each gives the strings of the dictionary, up to the end or the first error |
| `Gif.Decoder.OutCode` | Uber Transit Simulation/apps/graph_viewer/src/stb_image.h:6379-6414 | The recursion over prefixes ends and paints the code's string |
| `Gif.Decoder.TakeCode` | Uber Transit Simulation/apps/graph_viewer/src/stb_image.h:6458-6497 | What each kind of code does to table, registers and canvas |
| `Gif.Decoder.AddCode` | Uber Transit Simulation/apps/graph_viewer/src/stb_image.h:6473-6481 | A new entry stands for the last string and the first byte of this one, also when the code is the one being added |
| `GifTable.LookUp` | Uber Transit Simulation/apps/graph_viewer/src/stb_image.h:6379-6388 | Every live entry's prefix is an earlier live entry, its string is the prefix's string and its suffix, and first is the string's first byte |
| `GifTable.AddEntry` | Uber Transit Simulation/apps/graph_viewer/src/stb_image.h:6478-6480 | Adding an entry keeps the table right |
| `Gif.FramePixels` | Uber Transit Simulation/apps/graph_viewer/src/stb_image.h:6389-6401 | After a frame the k-th pixel of the painting order shows bytes 2, 1, 0 and 3 of the k-th index's entry in the colour table unless the last of them is at most 128, and every other pixel keeps its colour |
| `Gif.Painter.Emit` | Uber Transit Simulation/apps/graph_viewer/src/stb_image.h:6389-6413 | One index is painted at the cursor, and the cursor moves to the next place of the painting order; past the end nothing changes |
| `Gif.Painter.Begin` | Uber Transit Simulation/apps/graph_viewer/src/stb_image.h:6582-6605 | The cursor starts at the beginning of the painting order, or at its end for an empty frame |
| `GifCursor.OrderIsFrame` | Uber Transit Simulation/apps/graph_viewer/src/stb_image.h:6403-6413 | The painting order, interlaced or not, names every pixel of the rectangle exactly once and nothing else |
| `GifCursor.RowsArePermutation` | Uber Transit Simulation/apps/graph_viewer/src/stb_image.h:6406-6412 | The four interlaced passes come by every row exactly once |
| `GifCursor.InterlacedRows` | Uber Transit Simulation/apps/graph_viewer/src/stb_image.h:6406-6412 | The passes: every eighth row from 0, every eighth from 4, every fourth from 2, every second from 1 |
| `GifPaint.PaintElsewhere` | Uber Transit Simulation/apps/graph_viewer/src/stb_image.h:6392-6401 | Pixels off the order keep colour and history |
| `TgaImage.ImageRoundTrip` | Uber Transit Simulation/apps/graph_viewer/src/stb_image.h:5707-5797 | Reading the packets written for an image gives it back, or turned over if the writer was told to flip |
| `TgaImage.WriteAndRead` | Uber Transit Simulation/apps/graph_viewer/src/stb_image_write.h:524-570 | The program itself, for every image and pixel size, flipped or not |
| `Tga.WriteRow` | Uber Transit Simulation/apps/graph_viewer/src/stb_image_write.h:536-568 | One row: packets of 1 to 128 pixels that together are the row |
| `Tga.PacketsRead` | Uber Transit Simulation/apps/graph_viewer/src/stb_image.h:5707-5761 | Whatever packets stand for some pixels, the reader's count, repeat and read-next state gives those pixels |
| `Tga.CodedIs` | Uber Transit Simulation/apps/graph_viewer/src/stb_image_write.h:548-568 | A packet in bytes: one less than the number of its pixels, with the highest bit for a run, then the pixels with blue, green, red and alpha in this order |
| `TgaImage.FileRows` | Uber Transit Simulation/apps/graph_viewer/src/stb_image_write.h:528-538 | Row r of the file is row h - 1 - r of the image, or row r when flipping |
| `Tga.ReadPixels` | Uber Transit Simulation/apps/graph_viewer/src/stb_image.h:5707-5761 | The reader's loop gives the pixels that the input stands for |
| `TgaImage.Invert` | Uber Transit Simulation/apps/graph_viewer/src/stb_image.h:5764-5777 | The exchange loop turns the rows over, the middle row of an odd height included |
| `HdrScanline.ScanlineRoundTrip` | Uber Transit Simulation/apps/graph_viewer/src/stb_image.h:6944-6974 | A written scanline of width 8 to 32767 is read back whole and reading ends exactly after it |
| `HdrScanline.WriteAndRead` | Uber Transit Simulation/apps/graph_viewer/src/stb_image_write.h:634-720 | The program itself: the four components stored pixel by pixel |
| `Hdr.Coder.WriteComponent` | Uber Transit Simulation/apps/graph_viewer/src/stb_image_write.h:683-719 | One component: dumps of 1 to 128 bytes and runs of 1 to 127 that together are the row; the loop ends |
| `Hdr.CodedIs` | Uber Transit Simulation/apps/graph_viewer/src/stb_image_write.h:618-632 | A packet in bytes: above 128 the length of a run and its byte, otherwise the number of bytes that follow |
| `HdrScanline.CodedIs` | Uber Transit Simulation/apps/graph_viewer/src/stb_image_write.h:634-719 | A scanline in bytes: 2, 2, the width, and the packets of the four components one after the other |
| `Hdr.ComponentRoundTrip` | Uber Transit Simulation/apps/graph_viewer/src/stb_image.h:6955-6974 | Reading those packets gives the component back |
| `Hdr.ReadComponent` | Uber Transit Simulation/apps/graph_viewer/src/stb_image.h:6955-6974 | The reader's loop over any input: the row, corrupt, or without end when only empty dumps are left |
| `JsonRoundTrip.DocumentRoundTrip` | Uber Transit Simulation/dependencies/include/picojson.h:581-650 | Parsing the compact or the prettified text of a value gives the value back if and only if all its arrays and objects lie under fewer than 100 arrays; for any strings, with numbers whose text reads back |
| `JsonWriter.PrintAndParse` | Uber Transit Simulation/dependencies/include/picojson.h:1098-1131 | The program itself |
| `JsonWriter.SerializeDocument` | Uber Transit Simulation/dependencies/include/picojson.h:581-650 | The serializer that appends to its output writes the text of the value |
| `JsonWriter.Output.SerializeString` | Uber Transit Simulation/dependencies/include/picojson.h:529-564 | Strings are written with every byte escaped as the table says |
| `JsonReader.ParseDocument` | Uber Transit Simulation/dependencies/include/picojson.h:876-928 | The parser with its cursor and one character pushed back gives the function of the text, and what it accepts has sorted keys and respects the limit |
| `JsonReader.ParseString` | Uber Transit Simulation/dependencies/include/picojson.h:779-818 | String parsing with the consumed flag |
| `JsonReader.ParseCodePoint` | Uber Transit Simulation/dependencies/include/picojson.h:738-777 | Four hex digits, or a surrogate pair, and the bytes they give, or the error; `JsonStrings.CodePointReads` says which code point |
| `JsonGrammar.ParserIsGrammar` | Uber Transit Simulation/dependencies/include/picojson.h:876-945 | The parser reads value v from a text, with a certain rest, if and only if the text is white space, a value written in any way the grammar allows whose meaning is v and whose arrays nest within the limit, and that rest; white space of four kinds, every spelling of strings, members in any order and keys again included |
| `JsonGrammar.TokenReads` | Uber Transit Simulation/dependencies/include/picojson.h:876-945 | A value written in any such way is read as its meaning, and refused exactly when it lies under too many arrays |
| `JsonGrammar.TokenParts` | Uber Transit Simulation/dependencies/include/picojson.h:876-945 | Whatever the parser accepts is a value written in such a way |
| `JsonStrings.CodePointReads` | Uber Transit Simulation/dependencies/include/picojson.h:738-759 | Every code point from 10000 to 10FFFF hex, as its two UTF-16 units by quotient and remainder, and every other one as its unit, four digits of either case each, is read as itself |
| `JsonStrings.CodePointParts` | Uber Transit Simulation/dependencies/include/picojson.h:738-759 | Whatever is read as a code point is spelled so: no lone surrogate, no other digits |
| `JsonStrings.CharsRead` | Uber Transit Simulation/dependencies/include/picojson.h:779-818 | A string written with any mixture of plain characters, short escapes and code points is read as the bytes these stand for |
| `JsonStrings.EscapeIs` | Uber Transit Simulation/dependencies/include/picojson.h:529-553 | What the printer writes for each byte: a short escape for eight of them, four digits for other control characters and 7f, the byte itself otherwise |
| `JsonRoundTrip.BreakIs` | Uber Transit Simulation/dependencies/include/picojson.h:574-579 | A line of prettified text begins with two spaces for each level |
| `JsonParser.Utf8IsRight` | Uber Transit Simulation/dependencies/include/picojson.h:760-776 | The bytes written for a code point decode to it, their number is the one for its range, the first byte tells it, and all others are continuation bytes |
| `JsonRoundTrip.ValueIsGood` | Uber Transit Simulation/dependencies/include/picojson.h:996-1027 | Every value that any text parses to has sorted members without duplicates and respects the limit |
| `JsonRoundTrip.InsertIsSorted` | Uber Transit Simulation/dependencies/include/picojson.h:1019-1022 | Storing a member keeps the keys sorted and different |
| `JsonRoundTrip.InsertReplaces` | Uber Transit Simulation/dependencies/include/picojson.h:1019-1022 | Storing a member takes the place of one with the same key and keeps all others, in both directions |
| `Monitor.RunInv` | Multi-Threaded HTTP Server/connection_queue.c:32-157 | In every state of every run of any number of producers and consumers, spurious wake-ups and shutdown included: ring indices agree, first in first out, one holder of the mutex, no lost wake-up |
| `Monitor.RunFacts` | Multi-Threaded HTTP Server/connection_queue.c:55-65 | The write index is the read index plus the length modulo the capacity, and what went in is what went out followed by what is stored, in order |
| `Monitor.NeverAllAsleep` | Multi-Threaded HTTP Server/connection_queue.c:40-53 | When a consumer and a producer both sleep, some thread has been woken and not yet run |
| `Monitor.NobodyForgotten` | Multi-Threaded HTTP Server/connection_queue.c:94-123 | While a consumer sleeps and something is stored some consumer has been woken, and likewise for producers and free slots |
| `Monitor.ConsumerCanRun` | Multi-Threaded HTTP Server/connection_queue.c:86-139 | A woken or calling consumer can take a step once the mutex is free, and the one that holds it can give it up |
| `Monitor.ProducerCanRun` | Multi-Threaded HTTP Server/connection_queue.c:32-84 | The same for producers |
| `ConnectionQueue.ConnectionQueue.EnqueueSection` | Multi-Threaded HTTP Server/connection_queue.c:32-84 | The code of one section under the mutex is exactly the producer's step of the protocol: it puts the value in, refuses, or must wait |
| `ConnectionQueue.ConnectionQueue.DequeueSection` | Multi-Threaded HTTP Server/connection_queue.c:86-139 | The code of one section is exactly the consumer's step: it takes the oldest out, refuses, or must wait |
| `ConnectionQueue.ConnectionQueue.Shutdown` | Multi-Threaded HTTP Server/connection_queue.c:141-144 | Setting the flag, without the mutex, is the first step of the shutdown |
| `Ring.PutAppends` | Multi-Threaded HTTP Server/connection_queue.c:55-65 | Putting adds at the end, for any capacity |
| `Ring.TakeRemoves` | Multi-Threaded HTTP Server/connection_queue.c:110-120 | Taking removes the oldest |
| `Server.FreedAtTheEnd` | Multi-Threaded HTTP Server/http_server.c:171-210 | In every run that reaches the freeing of the queue every accepted descriptor has been closed exactly once, no other, and no thread is in a call |
| `Server.TraceSafe` | Multi-Threaded HTTP Server/http_server.c:26-76 | In every state every accepted descriptor is in exactly one place: the queue, a worker, the main thread, or closed; a worker leaves only after shutdown and with the queue empty |
| `Server.AllClosedOnce` | Multi-Threaded HTTP Server/http_server.c:190-202 | When all workers have returned the queue is empty and every accepted descriptor is closed, once |
| `Server.StepIsNext` | Multi-Threaded HTTP Server/http_server.c:26-76 | Every step of the server is a step of the queue's protocol or leaves the queue alone |
| `Server.MainNeverRefused` | Multi-Threaded HTTP Server/http_server.c:182-187 | The main thread's own enqueue is never refused by a shutdown |
| `Barrier.PassedBound` | Multi-Threaded HTTP Server/concurrent_open.c:60-92 | In every reachable state at most degree times the number of complete groups have passed |
| `Barrier.QuietCount` | Multi-Threaded HTTP Server/concurrent_open.c:60-92 | When nothing can happen without a new arrival exactly arrivals modulo degree threads are blocked and all others have passed |
| `Barrier.RunInv` | Multi-Threaded HTTP Server/concurrent_open.c:60-92 | The counting invariant over every interleaving of arrivals, single posts and waits |
| `Barrier.Gate.Arrive` | Multi-Threaded HTTP Server/concurrent_open.c:62-84 | The code of the section under the lock is a path of the protocol: it enters, and either must wait, or posts degree less one times and leaves |
| `Pipeline.RunPipelinedCommands` | swish Shell/swish_funcs.c:52-239 | For every line and every table of the shell, standard descriptors open or closed: one child for each command, the last command's first, each with the right command and the descriptors that the wiring gives it, which are the right ones for all children exactly unless there is a pipe and the shell has descriptor 0 open and 1 closed; the shell's own table is as before |
| `Pipeline.PipesJoinNeighbours` | swish Shell/swish_funcs.c:88-239 | For every table of the shell: each pipe's read end is held by the later of two neighbouring commands alone and its write end by the earlier one alone; the shell holds neither |
| `Pipeline.WiredUnlessTaken` | swish Shell/swish_funcs.c:139-186 | All children have the right standard descriptors exactly when there is one command, descriptor 0 is closed, or descriptor 1 is open; all but the last command have them always |
| `Pipeline.ClosedOutput` | swish Shell/swish_funcs.c:97-100 | With descriptor 0 open and 1 closed the last of two commands writes to the read end of its own pipe |
| `Pipeline.WireChild` | swish Shell/swish_funcs.c:139-186 | The child's closing and duplicating leaves it its own ends in place of the standard descriptors and no other end of any pipe, but for a standard output that the pipe took |
| `Pipeline.SplitJoins` | swish Shell/swish_funcs.c:57-62 | The commands joined with bars are the line |
| `Pipeline.SplitPure` | swish Shell/swish_funcs.c:57-62 | No command contains a bar |
| `Pipeline.SplitLast` | swish Shell/swish_funcs.c:217-235 | The last command is what follows the last bar, and the others are those of the line before it |
| `StringVector.StrVec.Add` | swish Shell/string_vector.c:31-56 | Appends, in twice the space when it is full |
| `StringVector.StrVec.FindLast` | swish Shell/string_vector.c:75-82 | The last place of a string, or -1 if there is none |
| `StringVector.StrVec.NumOccurrences` | swish Shell/string_vector.c:84-92 | How often a string occurs |
| `StringVector.StrVec.Take` | swish Shell/string_vector.c:94-103 | Keeps the first strings |
| `StringVector.StrVec.Slice` | swish Shell/string_vector.c:105-122 | A copy of a range, its bounds cut to the vector |

## Left out

- PngReader.Png.ParsePngFile: palettes, CgBI files and depths other than 8 end as Unmodelled.
- PngReader.Png.ReadChunk: a CgBI chunk and the contents of a tRNS chunk end as Unmodelled.
- PngReader.CreateRaw: rows of 8-bit components only; the code also unpacks 1, 2, 4 and 16 bits.
- Inflate.Zbuf.ParseHuffmanBlock: the growth of the output buffer, so that a block without end has the result NeverEnds where the code runs on, mostly until an allocation fails; and copying bytes onto themselves, where the result is NoDistance.
- The checksums of PNG chunks are an arbitrary function of the bytes; the reader skips them. The reader also skips the Adler-32 trailer.
- Conversion to a requested number of components after loading, other than the alpha byte that the PNG decoder adds.
- A header whose width or height is too large is reported in the model after the rest of the header has been read.
- The compressor's hash is an arbitrary function; allocation failure everywhere.
- Overflow of the writer's int products of stride and row number: addresses are unbounded integers, and `PngRoundTrip.WriterInRange` states when the code's sizes fit.
- In stb_image.h the switch over the filter stands outside the loop over a row, here inside it.
- Gif.Decoder.RenderFrame: the raster, its canvas and the frame rectangle only, without the choice of a colour table, the error for a missing one, and background filling; GIF headers, extensions and disposal are left out too.
- Tga.ReadPixels: run-length coded true-colour pixels only; indexed, 16-bit and plain pixels and TGA headers are left out.
- TgaImage.Invert: pixels are values, so whole pixels change places where the code exchanges bytes.
- HdrScanline.WriteAndRead: bytes of the four components, without the conversion from and to floats and without the flat form for widths below 8 or above 32767; the HDR file header is left out too.
- Hdr.ReadComponent: past the end of the input the code reads zeros for ever, empty dumps that do not advance it; the model's result is NeverEnds, because that loop does not end.
- JSON numbers: printing and reading are an arbitrary pair of functions, and the round trip asks that they restore the numbers of the value. Characters stand for bytes; parse contexts other than the default one; the position after a failed parse; error messages.
- Failures of system and pthread calls, HTTP, files and sockets, thread creation; progress after shutdown, because the flag is set and broadcast without the mutex.
- Which round of the barrier a thread belongs to: a later round may use up an earlier round's post, and only the counts hold.
- Forking, executing and waiting for children beyond their descriptor tables and commands; tokens are any values with equality.
- JPEG, BMP, PSD, PIC, PNM, gmock, libwebsockets, the transit service and the web sites.
