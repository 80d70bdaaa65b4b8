/** The PNG container as the reader takes it apart: signature, chunks, header checks, and what the
collected image data mean. Bytes past the end of the input count as zero, and checksums are skipped. */
module PngFile {
  import opened Bits
  import opened Spans
  import opened ByteReader
  import opened PngPixels
  import Adam7
  import BlockFormat

  const SIGNATURE: seq<byte> := [137, 80, 78, 71, 13, 10, 26, 10]
  const INT_MAX := 0x7fff_ffff
  const MAX_SIDE := 0x100_0000
  const MAX_SIZE := 0x4000_0000

  datatype Error =
    | BadSignature | MultipleHeaders | BadHeaderLength | TooLarge | BadDepth | BadColor
    | BadCompression | BadFilterMethod | BadInterlace | ZeroPixels | FirstNotHeader
    | BadPalette | TransparencyAfterData | TransparencyWithAlpha | BadTransparency
    | DataOverflow | OutOfData | NoData | UnknownChunk
    | InflateFailed(why: BlockFormat.Error) | OutOfMemory | NotEnoughPixels | InvalidFilter
    | Unmodelled

  /** What the parser knows between chunks. */
  datatype State = State(first: bool, x: nat, y: nat, n: nat, interlaced: bool, idata: seq<byte>) {
    predicate Valid() {
      |idata| <= INT_MAX && (!first ==> 0 < x <= MAX_SIDE && 0 < y <= MAX_SIDE && 1 <= n <= 4)
    }
  }

  const Start := State(true, 0, 0, 0, false, [])

  datatype Step =
    | Continue(pos: nat, state: State)
    | Finish(state: State)
    | Stop(error: Error)

  datatype Loaded =
    | Image(x: nat, y: nat, n: nat, outn: nat, pixels: seq<byte>)
    | Failed(error: Error)

  // ----- Chunk types -----

  const CGBI := Be('C' as int, 'g' as int, 'B' as int, 'I' as int)
  const IHDR := Be('I' as int, 'H' as int, 'D' as int, 'R' as int)
  const PLTE := Be('P' as int, 'L' as int, 'T' as int, 'E' as int)
  const TRNS := Be('t' as int, 'R' as int, 'N' as int, 'S' as int)
  const IDAT := Be('I' as int, 'D' as int, 'A' as int, 'T' as int)
  const IEND := Be('I' as int, 'E' as int, 'N' as int, 'D' as int)

  // ----- Chunks -----

  function HasColor(color: byte): bool {
    color / 2 % 2 == 1
  }

  function HasAlpha(color: byte): bool {
    color / 4 % 2 == 1
  }

  function Components(color: byte): (n: nat)
    ensures 1 <= n <= 4
  {
    (if HasColor(color) then 3 else 1) + (if HasAlpha(color) then 1 else 0)
  }

  /** The reader's limit on the bytes of an image. */
  predicate FitsSize(x: nat, y: nat, n: nat) {
    Span(Span(n, x), y) <= MAX_SIZE
  }

  /** The reader tests the limit by division, which cannot overflow. */
  lemma LimitByDivision(limit: nat, x: nat, n: nat, y: nat)
    requires 0 < x && 0 < n
    ensures y <= limit / x / n <==> Span(Span(n, x), y) <= limit
  {
    Quotient(limit, x, n * y);
    Quotient(limit / x, n, y);
    SpanProduct(x, n, y);
  }

  lemma SpanProduct(x: nat, n: nat, y: nat)
    ensures Span(Span(n, x), y) == x * (n * y)
  {
    SpanIsProduct(n, x);
    SpanIsProduct(Span(n, x), y);
    assert x * (n * y) == n * x * y;
  }

  lemma Quotient(limit: nat, d: nat, q: nat)
    requires 0 < d
    ensures q <= limit / d <==> d * q <= limit
  {
    var m := limit / d;
    assert limit == d * m + limit % d;
    if q <= m {
      assert d * q <= d * m by { Ordered(d, q, m); }
    } else {
      assert d * (m + 1) <= d * q by { Ordered(d, m + 1, q); }
      assert d * (m + 1) == d * m + d;
    }
  }

  lemma Ordered(d: nat, a: nat, b: nat)
    requires a <= b
    ensures d * a <= d * b
  {
  }

  datatype Check = Fine | Wrong(error: Error)

  /** The header's checks, in the order the reader makes them: first each field by itself. */
  function CheckFields(depth: byte, color: byte, comp: byte, filter: byte, interlace: byte): Check {
    if depth != 1 && depth != 2 && depth != 4 && depth != 8 && depth != 16 then Wrong(BadDepth)
    else if color > 6 then Wrong(BadColor)
    else if color == 3 && depth == 16 then Wrong(BadColor)
    else if color != 3 && color % 2 == 1 then Wrong(BadColor)
    else if comp != 0 then Wrong(BadCompression)
    else if filter != 0 then Wrong(BadFilterMethod)
    else if interlace > 1 then Wrong(BadInterlace)
    else Fine
  }

  /** Then the size of the image. */
  function CheckSize(x: nat, y: nat, depth: byte, color: byte): (check: Check)
    ensures check.Fine? ==> 0 < x && 0 < y
  {
    if x == 0 || y == 0 then Wrong(ZeroPixels)
    else if color == 3 then Wrong(if FitsSize(x, y, 4) then Unmodelled else TooLarge)
    else if !FitsSize(x, y, Components(color)) then Wrong(TooLarge)
    else if depth != 8 then Wrong(Unmodelled)
    else Fine
  }

  function CheckFormat(x: nat, y: nat, depth: byte, color: byte, comp: byte, filter: byte,
                       interlace: byte): (check: Check)
    ensures check.Fine? ==> 0 < x && 0 < y
  {
    var check := CheckFields(depth, color, comp, filter, interlace);
    if check.Wrong? then check else CheckSize(x, y, depth, color)
  }

  function CheckHeader(s: seq<byte>, pos: nat): (check: Check)
    ensures check.Fine? ==> 0 < Be32(s, pos) <= MAX_SIDE && 0 < Be32(s, pos + 4) <= MAX_SIDE
  {
    var x, y := Be32(s, pos), Be32(s, pos + 4);
    if x > MAX_SIDE || y > MAX_SIDE then Wrong(TooLarge)
    else CheckFormat(x, y, At(s, pos + 8), At(s, pos + 9), At(s, pos + 10), At(s, pos + 11), At(s, pos + 12))
  }

  /** The thirteen bytes of the header. */
  function ReadHeader(s: seq<byte>, pos: nat, st: State): (step: Step)
    requires st.Valid() && pos <= |s|
    ensures step.Continue? ==> step.state.Valid() && pos <= step.pos <= |s|
    ensures !step.Finish?
  {
    var check := CheckHeader(s, pos);
    if check.Wrong? then Stop(check.error)
    else
      var n, interlaced := Components(At(s, pos + 9)), At(s, pos + 12) == 1;
      Continue(Skip(s, pos, 13), State(false, Be32(s, pos), Be32(s, pos + 4), n, interlaced, st.idata))
  }

  function Int32(v: nat): int
    requires v < 0x1_0000_0000
  {
    if v <= INT_MAX then v else v - 0x1_0000_0000
  }

  /** The reader's guard against overflowing the total length of the image data. */
  predicate DataOverflows(ioff: nat, length: nat)
    requires ioff < 0x1_0000_0000
  {
    Int32((ioff + length) % 0x1_0000_0000) < Int32(ioff)
  }

  /** The guard holds the total below the largest int. */
  lemma DataBounded(ioff: nat, length: nat)
    requires ioff <= INT_MAX && length < 0x1_0000_0000
    ensures !DataOverflows(ioff, length) <==> ioff + length <= INT_MAX
  {
  }

  function ReadData(s: seq<byte>, pos: nat, st: State, length: nat): Step
    requires |st.idata| <= INT_MAX && length < 0x1_0000_0000
  {
    if DataOverflows(|st.idata|, length) then Stop(DataOverflow)
    else if pos + length > |s| then Stop(OutOfData)
    else Continue(pos + length, st.(idata := st.idata + s[pos..pos + length]))
  }

  /** A jump by an int: a negative distance goes to the end. */
  function SkipInt(s: seq<byte>, pos: nat, length: nat): (next: nat) {
    if length > INT_MAX then |s| else Skip(s, pos, length)
  }

  function ReadPalette(s: seq<byte>, pos: nat, st: State, length: nat): Step {
    if length > 256 * 3 then Stop(BadPalette)
    else if length / 3 * 3 != length then Stop(BadPalette)
    else Continue(Skip(s, pos, length), st)
  }

  /** Colour keys are checked, but images that have one are not modelled. */
  function ReadTransparency(st: State, length: nat): Error {
    if st.idata != [] then TransparencyAfterData
    else if st.n % 2 == 0 then TransparencyWithAlpha
    else if length != st.n * 2 then BadTransparency
    else Unmodelled
  }

  /** The body of a chunk, up to its checksum. */
  function Body(s: seq<byte>, pos: nat, st: State, length: nat, kind: nat): (step: Step)
    requires st.Valid() && pos <= |s| && length < 0x1_0000_0000
    ensures step.Continue? ==> step.state.Valid() && pos <= step.pos <= |s|
    ensures step.Finish? ==> step.state == st && !st.first
    ensures kind == 0 ==> step.Stop?
  {
    if kind == CGBI then Stop(Unmodelled)
    else if kind == IHDR then
      if !st.first then Stop(MultipleHeaders)
      else if length != 13 then Stop(BadHeaderLength)
      else ReadHeader(s, pos, st)
    else if st.first then Stop(FirstNotHeader)
    else if kind == PLTE then ReadPalette(s, pos, st, length)
    else if kind == TRNS then Stop(ReadTransparency(st, length))
    else if kind == IDAT then
      DataBounded(|st.idata|, length);
      ReadData(s, pos, st, length)
    else if kind == IEND then Finish(st)
    else if kind / 0x2000_0000 % 2 == 0 then Stop(UnknownChunk)
    else Continue(SkipInt(s, pos, length), st)
  }

  /** One chunk with its length, type and checksum. */
  function Chunk(s: seq<byte>, pos: nat, st: State): (step: Step)
    requires st.Valid() && pos <= |s|
    ensures step.Continue? ==> step.state.Valid() && pos < step.pos <= |s|
    ensures step.Finish? ==> step.state.Valid() && !step.state.first
  {
    NothingLeft(s, pos);
    Be32Is(s, pos);
    var step := Body(s, Skip(s, pos, 8), st, Be32(s, pos), Be32(s, pos + 4));
    if step.Continue? then Continue(Skip(s, step.pos, 4), step.state) else step
  }

  lemma ChunkStep(s: seq<byte>, pos: nat, st: State, length: nat, kind: nat, at: nat, step: Step)
    requires st.Valid() && pos <= |s| && length == Be32(s, pos) < 0x1_0000_0000 && kind == Be32(s, pos + 4)
    requires at == Skip(s, pos, 8) && step == Body(s, at, st, length, kind)
    ensures Chunk(s, pos, st) == if step.Continue? then Continue(Skip(s, step.pos, 4), step.state) else step
  {
  }

  lemma NothingLeft(s: seq<byte>, pos: nat)
    ensures |s| <= pos ==> Be32(s, pos + 4) == 0
  {
    Be32Is(s, pos + 4);
  }

  /** All chunks up to the last, or up to the first error. */
  function Chunks(s: seq<byte>, pos: nat, st: State): (step: Step)
    requires st.Valid() && pos <= |s|
    ensures !step.Continue?
    ensures step.Finish? ==> step.state.Valid() && !step.state.first
    decreases |s| - pos
  {
    var step := Chunk(s, pos, st);
    if step.Continue? then Chunks(s, step.pos, step.state) else step
  }

  // ----- The image -----

  /** A product that an int can hold. */
  predicate Allocates(a: nat, b: nat, c: nat, add: nat) {
    Span(a, b) <= INT_MAX && Span(Span(a, b), c) + add <= INT_MAX
  }

  datatype Raw = Good(pixels: seq<byte>) | Bad(error: Error)

  /** Filtered rows of an x by y image or pass. */
  function RawImage(raw: seq<byte>, x: nat, y: nat, n: nat, outn: nat): Raw
    requires 0 < n && (outn == n || outn == n + 1)
  {
    if !Allocates(x, y, outn, 0) then Bad(OutOfMemory)
    else if !Allocates(n, x, 8, 7) then Bad(TooLarge)
    else if |raw| < PngRows.Size(Span(n, x), y) then Bad(NotEnoughPixels)
    else if !GoodFilters(raw, Span(n, x), y) then Bad(InvalidFilter)
    else Good(Pixels(raw, x, n, outn, y))
  }

  datatype Passes = Passed(passes: seq<seq<byte>>, rest: seq<byte>) | Broken(error: Error)

  /** The first p passes of an interlaced image, one after the other. */
  function ReadPasses(raw: seq<byte>, x: nat, y: nat, n: nat, outn: nat, p: nat): Passes
    requires 0 < n && (outn == n || outn == n + 1) && p <= 7
  {
    if p == 0 then Passed([], raw) else
      var before := ReadPasses(raw, x, y, n, outn, p - 1);
      if before.Broken? then before else NextPass(before, x, y, n, outn, p - 1)
  }

  function NextPass(before: Passes, x: nat, y: nat, n: nat, outn: nat, p: nat): Passes
    requires 0 < n && (outn == n || outn == n + 1) && p < 7 && before.Passed?
  {
    var pw, ph := Adam7.PassWidth(x, p), Adam7.PassHeight(y, p);
    if pw == 0 || ph == 0 then Passed(before.passes + [[]], before.rest) else
      var image := RawImage(before.rest, pw, ph, n, outn);
      if image.Bad? then Broken(image.error)
      else Passed(before.passes + [image.pixels], before.rest[PngRows.Size(Span(n, pw), ph)..])
  }

  /** Whether the pixels are those of the inflated data. */
  ghost predicate Decodes(raw: seq<byte>, st: State, outn: nat, result: Loaded)
    requires 0 < st.n && (outn == st.n || outn == st.n + 1)
  {
    if !st.interlaced then
      var image := RawImage(raw, st.x, st.y, st.n, outn);
      result == if image.Good? then Image(st.x, st.y, st.n, outn, image.pixels) else Failed(image.error)
    else if !Allocates(st.x, st.y, outn, 0) then result == Failed(Unmodelled)
    else
      var all := ReadPasses(raw, st.x, st.y, st.n, outn, 7);
      if all.Broken? then result == Failed(all.error)
      else
        && Adam7.ArePasses(all.passes, st.x, st.y, outn, 7)
        && result.Image? && result == Image(st.x, st.y, st.n, outn, result.pixels)
        && Adam7.Woven(result.pixels, all.passes, st.x, st.y, outn, 7)
  }

  /** An alpha component is added on demand, except to make three components out of two. */
  function OutComponents(n: nat, reqComp: int): nat {
    if reqComp == n + 1 && reqComp != 3 then n + 1 else n
  }

  ghost predicate Finishes(st: State, reqComp: int, result: Loaded)
    requires 0 < st.n
  {
    if st.idata == [] then result == Failed(NoData)
    else
      var data := BlockFormat.Zlib(st.idata);
      if data.Bad? then result == Failed(InflateFailed(data.error))
      else Decodes(data.out, st, OutComponents(st.n, reqComp), result)
  }

  predicate IsSigned(file: seq<byte>) {
    forall i :: 0 <= i < 8 ==> At(file, i) == SIGNATURE[i]
  }

  /** What the reader makes of a file. */
  ghost predicate Loads(file: seq<byte>, reqComp: int, result: Loaded) {
    if !IsSigned(file) then result == Failed(BadSignature)
    else
      assert At(file, 7) == SIGNATURE[7];
      var last := Chunks(file, 8, Start);
      if last.Stop? then result == Failed(last.error)
      else Finishes(last.state, reqComp, result)
  }
}
