/** The PNG reader: a cursor over the input, the chunk loop, and the decoding of the collected data. */
module PngReader {
  import opened Bits
  import opened Spans
  import opened ByteReader
  import opened PngFile
  import opened PngPixels
  import Adam7
  import Inflate

  method ReadHeaderFields(s: Context) returns (check: Check, x: nat, y: nat, color: byte, interlace: byte)
    modifies s
    ensures check == PngFile.CheckHeader(s.buffer, old(s.pos))
    ensures check.Fine? ==>
              x == Be32(s.buffer, old(s.pos)) && y == Be32(s.buffer, old(s.pos) + 4)
              && s.pos == Skip(s.buffer, old(s.pos), 13)
    ensures check.Fine? ==> color == At(s.buffer, old(s.pos) + 9) && interlace == At(s.buffer, old(s.pos) + 12)
  {
    ghost var start := s.pos;
    color, interlace := 0, 0;
    x := s.Get32be();
    BeAfter(s.buffer, start, 4);
    SkipAgain(s.buffer, start, 4, 4);
    y := s.Get32be();
    if x > MAX_SIDE || y > MAX_SIDE { return Wrong(TooLarge), x, y, color, interlace; }
    check, color, interlace := ReadFormat(s, start, x, y);
  }

  /** The last five bytes of the header. */
  method ReadFormat(s: Context, ghost start: nat, x: nat, y: nat) returns (check: Check, color: byte, interlace: byte)
    requires s.pos == Skip(s.buffer, start, 8)
    modifies s
    ensures check == CheckFormat(x, y, At(s.buffer, start + 8), At(s.buffer, start + 9), At(s.buffer, start + 10),
                                 At(s.buffer, start + 11), At(s.buffer, start + 12))
    ensures color == At(s.buffer, start + 9) && interlace == At(s.buffer, start + 12)
    ensures s.pos == Skip(s.buffer, start, 13)
  {
    var depth := s.Get8();
    color := s.Get8();
    var comp := s.Get8();
    var filter := s.Get8();
    interlace := s.Get8();
    check := CheckFields(depth, color, comp, filter, interlace);
    if check.Fine? {
      check := LimitSize(x, y, depth, color);
    }
  }

  method LimitSize(x: nat, y: nat, depth: byte, color: byte) returns (check: Check)
    ensures check == CheckSize(x, y, depth, color)
  {
    if x == 0 || y == 0 { return Wrong(ZeroPixels); }
    if color == 3 { return Wrong(if TooManyBytes(x, 4, y) then TooLarge else Unmodelled); }
    if TooManyBytes(x, Components(color), y) { return Wrong(TooLarge); }
    if depth != 8 { return Wrong(Unmodelled); }
    return Fine;
  }

  function TooManyBytes(x: nat, n: nat, y: nat): (tooMany: bool)
    requires 0 < x && 0 < n
    ensures tooMany <==> !FitsSize(x, y, n)
  {
    LimitByDivision(MAX_SIZE, x, n, y);
    MAX_SIZE / x / n < y
  }

  function MulValid(a: nat, b: nat): (valid: bool)
    ensures valid <==> a * b <= INT_MAX
  {
    if b == 0 then true else
      Quotient(INT_MAX, b, a);
      a <= INT_MAX / b
  }

  /** The size check before an allocation: no intermediate product may overflow. */
  function Mad3Valid(a: nat, b: nat, c: nat, add: nat): (valid: bool)
    ensures valid <==> Allocates(a, b, c, add)
  {
    SpanIsProduct(a, b);
    SpanIsProduct(a * b, c);
    MulValid(a, b) && MulValid(a * b, c) && a * b * c <= INT_MAX - add
  }

  datatype Signal = Proceed | Done | Fail(error: Error)

  class Png {
    const s: Context
    var first: bool
    var imgX: nat
    var imgY: nat
    var imgN: nat
    var interlaced: bool
    var idata: seq<byte>

    constructor (context: Context)
      ensures s == context && Known() == Start
    {
      s := context;
      first, imgX, imgY, imgN, interlaced, idata := true, 0, 0, 0, false, [];
    }

    ghost function Known(): State
      reads this
    {
      State(first, imgX, imgY, imgN, interlaced, idata)
    }

    /** What a step did is what it should have done. */
    ghost predicate Follows(step: Step, signal: Signal)
      reads this, s
    {
      (signal.Proceed? ==> step == Continue(s.pos, Known()))
      && (signal.Done? ==> step == Finish(Known()))
      && (signal.Fail? ==> step == Stop(signal.error))
    }

    method CheckHeader() returns (ok: bool)
      requires s.pos == 0
      modifies s
      ensures ok <==> IsSigned(s.buffer)
      ensures ok ==> s.pos == 8
    {
      for i := 0 to 8
        invariant s.pos == i
        invariant forall j :: 0 <= j < i ==> At(s.buffer, j) == SIGNATURE[j]
      {
        var b := s.Get8();
        if b != SIGNATURE[i] { return false; }
      }
      ok := true;
    }

    method ReadIhdr(ghost pos: nat, ghost st: State) returns (signal: Signal)
      requires pos == s.pos <= |s.buffer| && st == Known() && first && st.Valid()
      modifies this, s
      ensures Follows(PngFile.ReadHeader(s.buffer, pos, st), signal)
    {
      first := false;
      var check, x, y, color, interlace := ReadHeaderFields(s);
      if check.Wrong? { return Fail(check.error); }
      imgX, imgY, imgN, interlaced := x, y, Components(color), interlace == 1;
      return Proceed;
    }

    method ReadIdat(length: nat) returns (signal: Signal)
      requires |idata| <= INT_MAX && length < 0x1_0000_0000
      modifies this, s
      ensures Follows(old(PngFile.ReadData(s.buffer, s.pos, Known(), length)), signal)
    {
      if DataOverflows(|idata|, length) { return Fail(DataOverflow); }
      var ok, data := s.GetN(length);
      if !ok { return Fail(OutOfData); }
      idata := idata + data;
      return Proceed;
    }

    method ReadPlte(length: nat) returns (signal: Signal)
      requires s.pos <= |s.buffer|
      modifies s
      ensures Follows(old(PngFile.ReadPalette(s.buffer, s.pos, Known(), length)), signal)
    {
      if length > 256 * 3 { return Fail(BadPalette); }
      var entries := length / 3;
      if entries * 3 != length { return Fail(BadPalette); }
      var i := 0;
      while i < entries
        invariant i <= entries && s.pos == Skip(s.buffer, old(s.pos), 3 * i)
      {
        var r := s.Get8();
        var g := s.Get8();
        var b := s.Get8();
        i := i + 1;
      }
      return Proceed;
    }

    /** One chunk, without its checksum. */
    method ReadBody(length: nat, kind: nat, ghost st: State) returns (signal: Signal, ghost step: Step)
      requires s.pos <= |s.buffer| && st == Known() && st.Valid() && length < 0x1_0000_0000
      modifies this, s
      ensures step == PngFile.Body(s.buffer, old(s.pos), st, length, kind) && Follows(step, signal)
    {
      step := PngFile.Body(s.buffer, s.pos, st, length, kind);
      if kind == CGBI {
        signal := Fail(Unmodelled);
      } else if kind == IHDR {
        if !first { return Fail(MultipleHeaders), step; }
        if length != 13 { return Fail(BadHeaderLength), step; }
        signal := ReadIhdr(s.pos, st);
      } else if first {
        signal := Fail(FirstNotHeader);
      } else if kind == PLTE {
        signal := ReadPlte(length);
      } else if kind == TRNS {
        signal := Fail(if idata != [] then TransparencyAfterData
                       else if imgN % 2 == 0 then TransparencyWithAlpha
                       else if length != imgN * 2 then BadTransparency
                       else Unmodelled);
      } else if kind == IDAT {
        signal := ReadIdat(length);
      } else if kind == IEND {
        signal := Done;
      } else if kind / 0x2000_0000 % 2 == 0 {
        signal := Fail(UnknownChunk);
      } else {
        s.SkipBytes(Int32(length));
        signal := Proceed;
      }
    }

    method ReadChunk(ghost st: State) returns (signal: Signal)
      requires s.pos <= |s.buffer| && st == Known() && st.Valid()
      modifies this, s
      ensures Follows(PngFile.Chunk(s.buffer, old(s.pos), st), signal)
    {
      ghost var pos := s.pos;
      var length, kind := ReadStart();
      ghost var step, at := Stop(Unmodelled), s.pos;
      signal, step := ReadBody(length, kind, st);
      ChunkStep(s.buffer, pos, st, length, kind, at, step);
      SkipChecksum(signal, step);
    }

    method ReadStart() returns (length: nat, kind: nat)
      requires s.pos <= |s.buffer|
      modifies s
      ensures length == Be32(s.buffer, old(s.pos)) < 0x1_0000_0000 && kind == Be32(s.buffer, old(s.pos) + 4)
      ensures s.pos == Skip(s.buffer, old(s.pos), 8)
    {
      length := s.Get32be();
      BeAfter(s.buffer, old(s.pos), 4);
      SkipAgain(s.buffer, old(s.pos), 4, 4);
      kind := s.Get32be();
    }

    method SkipChecksum(signal: Signal, ghost step: Step)
      requires Follows(step, signal)
      modifies s
      ensures Follows(if step.Continue? then Continue(Skip(s.buffer, step.pos, 4), step.state) else step, signal)
    {
      if signal.Proceed? {
        var crc := s.Get32be();
      }
    }

    /** The whole file. */
    method ParsePngFile(reqComp: int) returns (result: Loaded)
      requires Known() == Start && s.pos == 0
      modifies this, s
      ensures Loads(s.buffer, reqComp, result)
    {
      var ok := CheckHeader();
      if !ok { return Failed(BadSignature); }
      assert At(s.buffer, 7) == SIGNATURE[7];
      ghost var all := Chunks(s.buffer, 8, Start);
      var signal := ReadChunk(Known());
      while signal.Proceed?
        invariant signal.Proceed? ==> s.pos <= |s.buffer| && Known().Valid() && Chunks(s.buffer, s.pos, Known()) == all
        invariant signal.Done? ==> all == Finish(Known())
        invariant signal.Fail? ==> all == Stop(signal.error)
        decreases if signal.Proceed? then |s.buffer| - s.pos + 1 else 0
      {
        signal := ReadChunk(Known());
      }
      if signal.Fail? { return Failed(signal.error); }
      result := FinishImage(reqComp);
    }

    method FinishImage(reqComp: int) returns (result: Loaded)
      requires Known().Valid() && !first
      ensures Finishes(Known(), reqComp, result)
    {
      if idata == [] { return Failed(NoData); }
      var z := new Inflate.Zbuf(idata);
      var status := z.ParseZlib();
      if status.Failed? { return Failed(InflateFailed(status.why)); }
      result := CreateImage(z.zout, OutComponents(imgN, reqComp));
    }

    method CreateImage(raw: seq<byte>, outn: nat) returns (result: Loaded)
      requires Known().Valid() && !first && (outn == imgN || outn == imgN + 1)
      ensures Decodes(raw, Known(), outn, result)
    {
      if !interlaced {
        var ok, error, out := CreateRaw(raw, imgX, imgY, imgN, outn);
        return if ok then Image(imgX, imgY, imgN, outn, out[..]) else Failed(error);
      }
      if !Mad3Valid(imgX, imgY, outn, 0) { return Failed(Unmodelled); }
      result := Deinterlace(raw, imgX, imgY, imgN, outn);
    }
  }

  /** Allocates and decodes an image or a pass. */
  method CreateRaw(raw: seq<byte>, x: nat, y: nat, n: nat, outn: nat) returns (ok: bool, error: Error, out: array<byte>)
    requires 0 < x && 0 < n && (outn == n || outn == n + 1)
    ensures RawImage(raw, x, y, n, outn) == if ok then Good(out[..]) else Bad(error)
    ensures ok ==> fresh(out)
  {
    out := new byte[0];
    if !Mad3Valid(x, y, outn, 0) { return false, OutOfMemory, out; }
    if !Mad3Valid(n, x, 8, 7) { return false, TooLarge, out; }
    var w, stride := Width(n, x), Width(outn, x);
    if |raw| < Area(w + 1, y) { return false, NotEnoughPixels, out; }
    out := new byte[Area(stride, y)];
    ok := DecodeRows(raw, out, x, y, n, outn, w, stride);
    error := InvalidFilter;
  }

  /** The bytes of a row, rounded up from its bits. */
  function Width(n: nat, x: nat): (w: nat)
    ensures w == Span(n, x)
  {
    SpanIsProduct(n, x);
    (n * x * 8 + 7) / 8
  }

  function Area(w: nat, y: nat): (area: nat)
    ensures area == Span(w, y)
  {
    SpanIsProduct(w, y);
    w * y
  }

  /** Decodes the seven passes one after the other and scatters each. */
  method Deinterlace(raw: seq<byte>, x: nat, y: nat, n: nat, outn: nat) returns (result: Loaded)
    requires 0 < x && 0 < y && 0 < n && (outn == n || outn == n + 1)
    ensures var all := ReadPasses(raw, x, y, n, outn, 7);
            if all.Broken? then result == Failed(all.error)
            else
              && Adam7.ArePasses(all.passes, x, y, outn, 7)
              && result.Image? && result == Image(x, y, n, outn, result.pixels)
              && Adam7.Woven(result.pixels, all.passes, x, y, outn, 7)
  {
    var final := new byte[Area(outn, Area(x, y))];
    var data := raw;
    ghost var passes := [];
    var p := 0;
    while p < 7
      invariant 0 <= p <= 7 && final.Length == Adam7.Size(x, y, outn)
      invariant ReadPasses(raw, x, y, n, outn, p) == Passed(passes, data)
      invariant Adam7.ArePasses(passes, x, y, outn, p) && Adam7.Woven(final[..], passes, x, y, outn, p)
    {
      ghost var before := final[..];
      ghost var pass;
      var ok, error;
      ok, error, data, pass := ReadPass(data, x, y, n, outn, p, final, passes);
      if !ok {
        ReadPassesBroken(raw, x, y, n, outn, p + 1);
        return Failed(error);
      }
      Adam7.ScatterWeaves(before, final[..], passes, pass, x, y, outn, p);
      passes := passes + [pass];
      p := p + 1;
    }
    result := Image(x, y, n, outn, final[..]);
  }

  method ReadPass(data: seq<byte>, x: nat, y: nat, n: nat, outn: nat, p: nat, final: array<byte>,
                  ghost passes: seq<seq<byte>>)
    returns (ok: bool, error: Error, rest: seq<byte>, ghost pass: seq<byte>)
    requires p < 7 && 0 < n && (outn == n || outn == n + 1) && final.Length == Adam7.Size(x, y, outn)
    modifies final
    ensures NextPass(Passed(passes, data), x, y, n, outn, p)
         == if ok then Passed(passes + [pass], rest) else Broken(error)
    ensures ok ==> |pass| == Adam7.PassSize(x, y, outn, p)
    ensures ok ==> Adam7.Scattered(old(final[..]), final[..], x, y, outn, p, pass, 0, Adam7.PassHeight(y, p))
  {
    var pw, ph := Adam7.PassWidth(x, p), Adam7.PassHeight(y, p);
    if pw == 0 || ph == 0 {
      EmptyPass(x, y, outn, p, final[..]);
      return true, Unmodelled, data, [];
    }
    ok, error, pass := PlacePass(data, x, y, n, outn, p, final);
    rest := data;
    if ok {
      rest := data[Area(Width(n, pw) + 1, ph)..];
    }
  }

  method PlacePass(data: seq<byte>, x: nat, y: nat, n: nat, outn: nat, p: nat, final: array<byte>)
    returns (ok: bool, error: Error, ghost pass: seq<byte>)
    requires p < 7 && 0 < n && (outn == n || outn == n + 1) && final.Length == Adam7.Size(x, y, outn)
    requires Adam7.PassWidth(x, p) > 0
    modifies final
    ensures RawImage(data, Adam7.PassWidth(x, p), Adam7.PassHeight(y, p), n, outn)
         == if ok then Good(pass) else Bad(error)
    ensures ok ==> |pass| == Adam7.PassSize(x, y, outn, p)
    ensures ok ==> Adam7.Scattered(old(final[..]), final[..], x, y, outn, p, pass, 0, Adam7.PassHeight(y, p))
  {
    var out;
    ok, error, out := CreateRaw(data, Adam7.PassWidth(x, p), Adam7.PassHeight(y, p), n, outn);
    pass := out[..];
    if ok {
      PassLength(outn, Adam7.PassWidth(x, p), Adam7.PassHeight(y, p));
      Adam7.Scatter(final, x, y, outn, p, out);
    }
  }

  lemma PassLength(outn: nat, pw: nat, ph: nat)
    ensures Span(Span(outn, pw), ph) == Span(outn, Span(pw, ph))
  {
    SpanSpan(outn, pw, ph);
  }

  lemma NoPixels(pw: nat, ph: nat, outn: nat)
    requires pw == 0 || ph == 0
    ensures Span(outn, Span(pw, ph)) == 0
  {
    SpanIsProduct(pw, ph);
  }

  lemma EmptyPass(x: nat, y: nat, outn: nat, p: nat, final: seq<byte>)
    requires p < 7 && (Adam7.PassWidth(x, p) == 0 || Adam7.PassHeight(y, p) == 0)
    ensures Adam7.PassSize(x, y, outn, p) == 0
    ensures Adam7.Scattered(final, final, x, y, outn, p, [], 0, Adam7.PassHeight(y, p))
  {
    NoPixels(Adam7.PassWidth(x, p), Adam7.PassHeight(y, p), outn);
    forall i: nat, j: nat, k: nat | Adam7.Inside(final, x, y, outn, i, j, k)
      ensures Adam7.ScatteredAt(final, final, x, y, outn, p, [], 0, Adam7.PassHeight(y, p), i, j, k)
    {
      Adam7.PassCovers(x, y, i, j);
    }
  }

  /** An error in one pass is the error of the whole. */
  lemma {:induction false} ReadPassesBroken(raw: seq<byte>, x: nat, y: nat, n: nat, outn: nat, p: nat)
    requires 0 < n && (outn == n || outn == n + 1) && p <= 7
    requires ReadPasses(raw, x, y, n, outn, p).Broken?
    ensures ReadPasses(raw, x, y, n, outn, 7) == ReadPasses(raw, x, y, n, outn, p)
    decreases 7 - p
  {
    if p < 7 {
      ReadPassesBroken(raw, x, y, n, outn, p + 1);
    }
  }
}
