/** The GIF raster decoder: codes are unpacked from data blocks, their strings are written through a
recursion over the code table, and every index is painted at a cursor that walks the frame. */
module Gif {
  import opened Sequences
  import opened Bits
  import opened Spans
  import opened ByteReader
  import opened GifCursor
  import opened GifPaint
  import opened GifLzw
  import opened GifTable

  class Painter {
    const out: array<byte>
    const history: array<byte>
    var colorTable: ColorTable
    var parse: nat
    var step: nat
    var startX: nat
    var startY: nat
    var maxX: nat
    var maxY: nat
    var curX: nat
    var curY: nat
    var lineSize: nat
    ghost var frame: Frame
    ghost var x: nat
    ghost var y: nat
    ghost var ahead: seq<nat>

    /** A blank canvas. */
    constructor (width: nat, height: nat)
      ensures fresh(out) && fresh(history) && out != history
      ensures history.Length == Span(width, height) && out.Length == 4 * history.Length
      ensures forall i :: 0 <= i < out.Length ==> out[i] == 0
    {
      SpanIsProduct(width, height);
      out := new byte[4 * (width * height)](_ => 0);
      history := new byte[width * height](_ => 0);
      colorTable := seq(TABLE_BYTES, _ => 0);
      parse, step, startX, startY, maxX, maxY, curX, curY, lineSize := 0, 0, 0, 0, 0, 0, 0, 0, 0;
    }

    ghost function Painted(): Canvas
      reads this, out, history
    {
      Canvas(out[..], history[..])
    }

    /** The cursor's byte offsets stand for column x of row y of the frame, or for its end; ahead is
    where the next pixels go. */
    ghost predicate OnTrack()
      reads this
    {
      && Bounds(frame, lineSize, startX, startY, maxX, maxY)
      && Steps(frame, parse, step)
      && Stands(frame, maxY, curX, curY, x, y)
      && ahead == OrderFrom(frame, x, y, parse)
    }

    ghost predicate Valid()
      reads this
    {
      OnTrack() && out != history
    }

    /** Puts the cursor on the first pixel of a frame, or past the end of an empty one. */
    method Begin(width: nat, height: nat, left: nat, top: nat, w: nat, h: nat, interlaced: bool)
      requires left + w <= width && top + h <= height
      requires history.Length == Span(width, height) && out.Length == 4 * history.Length && out != history
      modifies this
      ensures Valid() && frame == Frame(width, left, top, w, h, interlaced) && ahead == Order(frame)
      ensures AllOnCanvas(Painted(), ahead) && colorTable == old(colorTable)
    {
      Place(width, left, top, w, h, interlaced);
      OrderOnCanvas(frame, height, Painted());
    }

    method Place(width: nat, left: nat, top: nat, w: nat, h: nat, interlaced: bool)
      requires left + w <= width
      modifies this`frame, this`parse, this`step, this`startX, this`startY, this`maxX, this`maxY, this`curX, this`curY
      modifies this`lineSize, this`x, this`y, this`ahead
      ensures OnTrack() && frame == Frame(width, left, top, w, h, interlaced) && ahead == Order(frame)
    {
      frame := Frame(width, left, top, w, h, interlaced);
      SetBounds(width, left, top, w, h);
      SetSteps(interlaced);
      ToStart(w);
      ahead := Order(frame);
      OrderStarts(frame, y);
    }

    method ToStart(w: nat)
      requires w == frame.w && Bounds(frame, lineSize, startX, startY, maxX, maxY)
      modifies this`curX, this`curY, this`x, this`y
      ensures x == 0 && y == (if w == 0 then frame.h else 0) && Stands(frame, maxY, curX, curY, x, y)
    {
      curX, curY := startX, startY;
      x, y := 0, 0;
      if w == 0 {
        curY, y := maxY, frame.h;
      }
    }

    method SetBounds(width: nat, left: nat, top: nat, w: nat, h: nat)
      requires frame.width == width && frame.left == left && frame.top == top && frame.w == w && frame.h == h
      requires left + w <= width
      modifies this`lineSize, this`startX, this`startY, this`maxX, this`maxY
      ensures Bounds(frame, lineSize, startX, startY, maxX, maxY)
    {
      lineSize := width * 4;
      startX := left * 4;
      startY := RowBytes(width, top);
      maxX := startX + w * 4;
      maxY := startY + RowBytes(width, h);
      SpanAdd(width, top, h);
    }

    method SetSteps(interlaced: bool)
      requires frame.interlaced == interlaced && lineSize == 4 * frame.width
      modifies this`step, this`parse
      ensures Steps(frame, parse, step) && parse == Passes(interlaced)
    {
      if interlaced {
        EightRows(frame.width);
        step, parse := 8 * lineSize, 3;
      } else {
        OneRow(frame.width);
        step, parse := lineSize, 0;
      }
    }

    /** Moves past the pixel just painted. */
    method Advance()
      requires OnTrack() && y < frame.h
      modifies this`parse, this`step, this`curX, this`curY, this`x, this`y, this`ahead
      ensures OnTrack() && old(ahead) != [] && ahead == old(ahead)[1..]
    {
      RowEnds(frame, x, y, parse);
      ahead := ahead[1..];
      curX := curX + 4;
      x := x + 1;
      if curX >= maxX {
        NextRow();
      }
    }

    method NextRow()
      requires Bounds(frame, lineSize, startX, startY, maxX, maxY) && Steps(frame, parse, step) && frame.w > 0
      requires curY == frame.RowStart(y)
      requires ahead == Cells(frame, RowsFrom(y + Spacing(frame.interlaced, parse), frame.interlaced, parse, frame.h))
      modifies this`parse, this`step, this`curX, this`curY, this`x, this`y
      ensures OnTrack()
    {
      curX := startX;
      RowDown(frame, y, parse);
      curY := curY + step;
      x, y := 0, y + Spacing(frame.interlaced, parse);
      NextPass();
    }

    /** Goes on with the next pass for as long as the cursor is below the frame. */
    method NextPass()
      requires Bounds(frame, lineSize, startX, startY, maxX, maxY) && Steps(frame, parse, step) && frame.w > 0
      requires x == 0 && curX == startX && curY == frame.RowStart(y)
      requires ahead == Cells(frame, RowsFrom(y, frame.interlaced, parse, frame.h))
      modifies this`parse, this`step, this`curY, this`y
      ensures OnTrack()
    {
      BelowFrame(frame, y);
      while curY >= maxY && parse > 0
        invariant Steps(frame, parse, step) && curY == frame.RowStart(y)
        invariant curY >= maxY <==> y >= frame.h
        invariant ahead == Cells(frame, RowsFrom(y, frame.interlaced, parse, frame.h))
        decreases parse
      {
        PassRows(frame, y, parse);
        StartPass();
        BelowFrame(frame, y);
      }
      AheadOfRow(frame, y, parse);
    }

    method StartPass()
      requires Steps(frame, parse, step) && parse > 0 && lineSize == 4 * frame.width && startY == frame.RowStart(0)
      modifies this`parse, this`step, this`curY, this`y
      ensures parse == old(parse) - 1 && y == PassStart(old(parse))
      ensures Steps(frame, parse, step) && curY == frame.RowStart(y)
    {
      PassSteps(frame, parse);
      step := Pow2(parse) * lineSize;
      curY := startY + step / 2;
      y := PassStart(parse);
      parse := parse - 1;
    }

    /** One index: painted at the cursor, unless the frame is full. */
    method Emit(index: byte)
      requires Valid() && AllOnCanvas(Painted(), ahead)
      modifies this`parse, this`step, this`curX, this`curY, this`x, this`y, this`ahead, out, history
      ensures Valid()
      ensures Painted() == old(Paint(Painted(), colorTable, ahead, [index]))
      ensures ahead == Rest(old(ahead), 1)
    {
      ghost var before := Painted();
      BelowFrame(frame, y);
      if curY >= maxY {
        return;
      }
      AheadStarts(frame, x, y, parse);
      assert OnCanvas(before, ahead[0]);
      PlotAt(curX + curY, index);
      PaintOne(before, colorTable, ahead, index);
      Advance();
    }

    method PlotAt(idx: nat, index: byte)
      requires out != history && OnCanvas(Painted(), idx)
      modifies out, history
      ensures Painted() == old(Plot(Painted(), colorTable, idx, index))
    {
      history[idx / 4] := 1;
      var c := 4 * index as int;
      if colorTable[c + 3] > 128 {
        out[idx] := colorTable[c + 2];
        out[idx + 1] := colorTable[c + 1];
        out[idx + 2] := colorTable[c];
        out[idx + 3] := colorTable[c + 3];
      }
    }
  }

  // ----- The code table -----

  /** The present dictionary: its strings so far, the code last decoded, the width, and whether data may come. */
  datatype Registers = Registers(size: nat, avail: nat, oldcode: int, first: bool)

  ghost predicate Stand(cs: nat, b: Book, regs: Registers) {
    match regs
    case Registers(size, avail, oldcode, first) =>
      && IsBook(cs, b) && size == b.size && avail == Avail(cs, b.entries) && first == !b.started
      && (oldcode < 0 <==> b.last == [])
      && (oldcode >= 0 ==> IsLive(cs, b.entries, oldcode) && WordOf(cs, b.entries, oldcode) == b.last)
  }

  class Decoder {
    const g: Painter
    const prefix: array<int>
    const first: array<byte>
    const suffix: array<byte>

    constructor (painter: Painter)
      ensures g == painter && fresh(prefix) && fresh(first) && fresh(suffix) && first != suffix
      ensures prefix.Length == first.Length == suffix.Length == MAX_CODES
    {
      g := painter;
      prefix := new int[MAX_CODES];
      first := new byte[MAX_CODES];
      suffix := new byte[MAX_CODES];
    }

    ghost predicate Apart() {
      && first != suffix && g.out != g.history && {first, suffix} !! {g.out, g.history}
      && prefix.Length == first.Length == suffix.Length == MAX_CODES
    }

    ghost predicate Holds(cs: nat, entries: seq<seq<byte>>)
      reads this, prefix, first, suffix
    {
      TableOk(cs, entries, prefix[..], first[..], suffix[..])
    }

    /** The single bytes. */
    method InitCodes(cs: nat)
      requires cs <= 12 && Apart()
      modifies prefix, first, suffix
      ensures Holds(cs, [])
    {
      Pow2Monotone(cs, 12);
      assert Pow2(12) == 4096;
      var clear := Pow2(cs);
      for c := 0 to clear
        invariant forall i :: 0 <= i < c ==> prefix[i] == -1 && first[i] == i % 256 && suffix[i] == i % 256
      {
        prefix[c] := -1;
        first[c] := c % 256;
        suffix[c] := c % 256;
      }
    }

    /** The indices done have been painted along order, from the canvas before. */
    ghost predicate Progress(before: Canvas, order: seq<nat>, done: seq<byte>)
      reads g, g.out, g.history
    {
      && g.Valid() && AllOnCanvas(before, order)
      && g.Painted() == Paint(before, g.colorTable, order, done) && g.ahead == Rest(order, |done|)
    }

    /** Paints the string of a code: that of its prefix first, then its last byte. */
    method OutCode(code: nat, ghost cs: nat, ghost entries: seq<seq<byte>>, ghost before: Canvas,
                   ghost order: seq<nat>, ghost done: seq<byte>)
      requires Apart() && Holds(cs, entries) && IsLive(cs, entries, code) && Progress(before, order, done)
      modifies g`parse, g`step, g`curX, g`curY, g`x, g`y, g`ahead, g.out, g.history
      ensures Progress(before, order, done + WordOf(cs, entries, code))
      decreases code
    {
      ghost var front := [];
      LookUp(cs, entries, prefix[..], first[..], suffix[..], code);
      if prefix[code] >= 0 {
        front := WordOf(cs, entries, prefix[code]);
        OutCode(prefix[code], cs, entries, before, order, done);
      }
      assert done + [] == done;
      assert WordOf(cs, entries, code) == front + [suffix[code]];
      Associates(done, front, [suffix[code]]);
      EmitAfter(suffix[code], before, order, done + front);
    }

    method EmitAfter(index: byte, ghost before: Canvas, ghost order: seq<nat>, ghost done: seq<byte>)
      requires Apart() && Progress(before, order, done)
      modifies g`parse, g`step, g`curX, g`curY, g`x, g`y, g`ahead, g.out, g.history
      ensures Progress(before, order, done + [index])
    {
      PaintAppend(before, g.colorTable, order, done, [index]);
      RestRest(order, |done|, 1);
      g.Emit(index);
    }

    /** Adds the last string, extended by the first byte of this code's string, or by its own first byte
    when the code is the one being added. */
    method AddCode(regs: Registers, code: nat, ghost cs: nat, ghost b: Book) returns (avail: nat)
      requires Apart() && Holds(cs, b.entries) && Stand(cs, b, regs) && b.last != [] && regs.avail < MAX_CODES
      requires code == regs.avail || IsLive(cs, b.entries, code)
      modifies prefix, first, suffix
      ensures Holds(cs, b.entries + [Extension(cs, b, code)]) && avail == regs.avail + 1
    {
      ghost var p0, f0, s0 := prefix[..], first[..], suffix[..];
      LookUp(cs, b.entries, p0, f0, s0, regs.oldcode);
      if code != regs.avail {
        LookUp(cs, b.entries, p0, f0, s0, code);
      }
      var p := regs.avail;
      avail := p + 1;
      prefix[p] := regs.oldcode;
      first[p] := first[regs.oldcode];
      suffix[p] := first[if code == avail then p else code];
      AddEntry(cs, b.entries, p0, f0, s0, regs.oldcode, suffix[p], prefix[..], first[..], suffix[..]);
    }

    /** The table and the registers stand for the dictionary. */
    ghost predicate Ready(cs: nat, b: Book, regs: Registers)
      reads this, prefix, first, suffix
    {
      Holds(cs, b.entries) && Stand(cs, b, regs)
    }

    ghost predicate Decoding(s: Context, cs: nat, regs: Registers, len: nat, bits: nat, validBits: nat, b: Book,
                             payload: seq<byte>,
                             r: nat, n: nat, done: seq<byte>, all: Decoded, end: nat, outcome: Outcome)
      reads this, s, prefix, first, suffix
    {
      match outcome
      case Ended(status) => InBlocks(s, len, payload, end) && all == Decoded(done, status)
      case Going =>
        && InBlocks(s, len, payload, end) && Buffered(bits, validBits, payload, r, n)
        && Ready(cs, b, regs) && Remains(cs, b, r, n, done, all)
    }

    /** What a code does to the table, the registers and the canvas. */
    method TakeCode(regs: Registers, cs: nat, code: nat, ghost b: Book, ghost before: Canvas, ghost order: seq<nat>,
                    ghost done: seq<byte>)
      returns (regs': Registers, outcome: Outcome, ghost b': Book, ghost done': seq<byte>)
      requires Apart() && Ready(cs, b, regs) && Progress(before, order, done)
      modifies prefix, first, suffix, g`parse, g`step, g`curX, g`curY, g`x, g`y, g`ahead, g.out, g.history
      ensures Progress(before, order, done') && Does(Step(cs, b, code), outcome, b', done, done')
      ensures outcome.Going? ==> Ready(cs, b', regs')
    {
      var clear := Pow2(cs);
      regs', b', done' := regs, b, done;
      if code == clear {
        ClearTable(cs, b.entries, prefix[..], first[..], suffix[..]);
        assert done + [] == done;
        regs', b' := Registers(cs + 1, clear + 2, -1, false), Cleared(cs, true);
        outcome := Going;
      } else if code == clear + 1 {
        outcome := Ended(Finished);
      } else if code <= regs.avail {
        regs', outcome, b', done' := TakeData(regs, cs, code, b, before, order, done);
      } else {
        outcome := Ended(IllegalCode);
      }
    }

    method TakeData(regs: Registers, cs: nat, code: nat, ghost b: Book, ghost before: Canvas, ghost order: seq<nat>,
                    ghost done: seq<byte>)
      returns (regs': Registers, outcome: Outcome, ghost b': Book, ghost done': seq<byte>)
      requires Apart() && Ready(cs, b, regs) && Progress(before, order, done)
      requires code <= regs.avail && code != Clear(cs) && code != Clear(cs) + 1
      modifies prefix, first, suffix, g`parse, g`step, g`curX, g`curY, g`x, g`y, g`ahead, g.out, g.history
      ensures Progress(before, order, done') && Does(Step(cs, b, code), outcome, b', done, done')
      ensures outcome.Going? ==> Ready(cs, b', regs')
    {
      var avail;
      regs', b', done' := regs, b, done;
      avail, outcome := Extend(regs, cs, code, b);
      if outcome.Going? {
        ghost var entries := NewEntries(cs, b, code);
        DataStep(cs, b, regs, code, done);
        regs' := PaintCode(regs, code, avail, cs, entries, before, order, done);
        b', done' := Step(cs, b, code).book, done + WordOf(cs, entries, code);
      }
    }

    /** Adds the string that this code completes, if there is a last string; or refuses the code. */
    method Extend(regs: Registers, cs: nat, code: nat, ghost b: Book) returns (avail: nat, outcome: Outcome)
      requires Apart() && Ready(cs, b, regs) && code <= regs.avail && code != Clear(cs) && code != Clear(cs) + 1
      modifies prefix, first, suffix
      ensures outcome.Ended? ==> Step(cs, b, code) == Halt(outcome.status)
      ensures outcome.Going? ==> b.started && if b.last == [] then code < regs.avail else regs.avail < MAX_CODES
      ensures outcome.Going? ==> Holds(cs, NewEntries(cs, b, code)) && avail == Avail(cs, NewEntries(cs, b, code))
    {
      avail := regs.avail;
      if regs.first {
        return avail, Ended(NoClearCode);
      }
      if regs.oldcode >= 0 {
        if avail + 1 > MAX_CODES {
          return avail, Ended(TooManyCodes);
        }
        avail := AddCode(regs, code, cs, b);
      } else if code == avail {
        return avail, Ended(IllegalCode);
      }
      outcome := Going;
    }

    method PaintCode(regs: Registers, code: nat, avail: nat, ghost cs: nat, ghost entries: seq<seq<byte>>,
                     ghost before: Canvas, ghost order: seq<nat>, ghost done: seq<byte>) returns (regs': Registers)
      requires Apart() && Holds(cs, entries) && IsLive(cs, entries, code) && Progress(before, order, done)
      modifies g`parse, g`step, g`curX, g`curY, g`x, g`y, g`ahead, g.out, g.history
      ensures Progress(before, order, done + WordOf(cs, entries, code)) && Holds(cs, entries)
      ensures regs' == Registers(Grow(regs.size, avail), avail, code, regs.first)
    {
      OutCode(code, cs, entries, before, order, done);
      var size := if Low(avail, regs.size) == 0 && avail <= 0xFFF then regs.size + 1 else regs.size;
      regs' := Registers(size, avail, code, regs.first);
    }

    /** A whole frame: refused when it does not fit the canvas, else painted. */
    method RenderFrame(s: Context, f: Frame, height: nat) returns (result: Rendered)
      requires Apart() && s.pos <= |s.buffer|
      requires g.history.Length == Span(f.width, height) && g.out.Length == 4 * g.history.Length
      modifies s, prefix, first, suffix, g, g.out, g.history
      ensures !f.Fits(height) ==> result == BadFrame && g.Painted() == old(g.Painted())
      ensures f.Fits(height) ==>
                var raster := Raster(s.buffer, old(s.pos));
                && result == raster.result && (result.Complete? ==> s.pos == raster.end)
                && AllOnCanvas(old(g.Painted()), Order(f))
                && g.Painted() == Paint(old(g.Painted()), g.colorTable, Order(f), raster.word)
    {
      if f.left + f.w > f.width || f.top + f.h > height {
        return BadFrame;
      }
      g.Begin(f.width, height, f.left, f.top, f.w, f.h, f.interlaced);
      result := ProcessRaster(s);
    }

    /** Unpacks codes from the data blocks and takes each, up to the end or an error. */
    method ProcessRaster(s: Context) returns (result: Rendered)
      requires Apart() && g.Valid() && s.pos <= |s.buffer| && AllOnCanvas(g.Painted(), g.ahead)
      modifies s, prefix, first, suffix, g`parse, g`step, g`curX, g`curY, g`x, g`y, g`ahead, g.out, g.history
      ensures g.Valid()
      ensures var raster := Raster(s.buffer, old(s.pos));
              && result == raster.result
              && g.Painted() == old(Paint(g.Painted(), g.colorTable, g.ahead, raster.word))
              && (result.Complete? ==> s.pos == raster.end)
    {
      var cs: nat := s.Get8();
      ghost var before, order := g.Painted(), g.ahead;
      if cs > 12 {
        return BadCodeSize;
      }
      InitCodes(cs);
      ghost var payload, all := Payload(s.buffer, s.pos, 0), DecodeBlocks(cs, s.buffer, s.pos);
      assert Rest(order, 0) == order;
      DecodingStarts(cs, s);
      result := TakeCodes(s, cs, before, order, payload, all, BlocksEnd(s.buffer, s.pos, 0));
    }

    /** The decoding loop. */
    method TakeCodes(s: Context, cs: nat, ghost before: Canvas, ghost order: seq<nat>, ghost payload0: seq<byte>,
                     ghost all: Decoded, ghost end: nat) returns (result: Rendered)
      requires Apart() && Progress(before, order, [])
      requires Ready(cs, Cleared(cs, false), StartRegisters(cs)) && InBlocks(s, 0, payload0, end)
      requires Remains(cs, Cleared(cs, false), Val(payload0), 8 * |payload0|, [], all)
      modifies s, prefix, first, suffix, g`parse, g`step, g`curX, g`curY, g`x, g`y, g`ahead, g.out, g.history
      ensures Progress(before, order, all.word) && Over(all, result, s.pos, end)
    {
      var regs := StartRegisters(cs);
      var bits: nat, validBits: nat, len: nat := 0, 0, 0;
      ghost var b, done, payload := Cleared(cs, false), [], payload0;
      ghost var r: nat, n: nat := Val(payload), 8 * |payload|;
      var outcome := Going;
      while outcome.Going?
        invariant Progress(before, order, done)
        invariant Decoding(s, cs, regs, len, bits, validBits, b, payload, r, n, done, all, end, outcome)
        decreases n, |payload|
      {
        if validBits < regs.size {
          var more;
          more, len, bits, validBits, payload := NextByte(s, len, bits, validBits, payload, r, n, end);
          if !more {
            NoMoreCodes(cs, b, r, n, done, all);
            return Complete;
          }
        } else {
          regs, outcome, bits, validBits, b, done, r, n := NextCode(regs, cs, bits, validBits, b, before, order,
                                                                    payload, r, n, done, all);
        }
      }
      result := Conclude(s, len, outcome.status);
    }

    /** Takes the next code out of the bit buffer. */
    method NextCode(regs: Registers, cs: nat, bits: nat, validBits: nat, ghost b: Book,
                    ghost before: Canvas, ghost order: seq<nat>, ghost payload: seq<byte>, ghost r: nat, ghost n: nat,
                    ghost done: seq<byte>, ghost all: Decoded)
      returns (regs': Registers, outcome: Outcome, bits': nat, validBits': nat, ghost b': Book, ghost done': seq<byte>,
               ghost r': nat, ghost n': nat)
      requires Apart() && Progress(before, order, done) && Ready(cs, b, regs) && Remains(cs, b, r, n, done, all)
      requires Buffered(bits, validBits, payload, r, n) && regs.size <= validBits
      modifies prefix, first, suffix, g`parse, g`step, g`curX, g`curY, g`x, g`y, g`ahead, g.out, g.history
      ensures Progress(before, order, done') && n' < n && Buffered(bits', validBits', payload, r', n')
      ensures outcome.Going? ==> Ready(cs, b', regs') && Remains(cs, b', r', n', done', all)
      ensures outcome.Ended? ==> all == Decoded(done', outcome.status)
    {
      var code;
      code, bits', validBits' := TakeBits(bits, validBits, regs.size, payload, r, n);
      regs', outcome, b', done', r', n' := Interpret(regs, cs, code, b, before, order, r, n, done, all);
    }

    method TakeBits(bits: nat, validBits: nat, size: nat, ghost payload: seq<byte>, ghost r: nat, ghost n: nat)
      returns (code: nat, bits': nat, validBits': nat)
      requires Buffered(bits, validBits, payload, r, n) && size <= validBits
      ensures size <= n && code == Low(r, size) && Buffered(bits', validBits', payload, Drop(r, size), n - size)
    {
      code := Low(bits, size);
      bits' := Drop(bits, size);
      validBits' := validBits - size;
      BufferDrop(bits, validBits, payload, r, n, size);
    }

    /** What the first code of the n bits of r does. */
    method Interpret(regs: Registers, cs: nat, code: nat, ghost b: Book, ghost before: Canvas, ghost order: seq<nat>,
                    ghost r: nat, ghost n: nat, ghost done: seq<byte>, ghost all: Decoded)
      returns (regs': Registers, outcome: Outcome, ghost b': Book, ghost done': seq<byte>, ghost r': nat, ghost n': nat)
      requires Apart() && Ready(cs, b, regs) && Progress(before, order, done)
      requires Remains(cs, b, r, n, done, all) && b.size <= n && code == Low(r, b.size)
      modifies prefix, first, suffix, g`parse, g`step, g`curX, g`curY, g`x, g`y, g`ahead, g.out, g.history
      ensures Progress(before, order, done') && r' == Drop(r, b.size) && n' == n - b.size
      ensures outcome.Ended? ==> all == Decoded(done', outcome.status)
      ensures outcome.Going? ==> Ready(cs, b', regs') && Remains(cs, b', r', n', done', all)
    {
      r', n' := Drop(r, b.size), n - b.size;
      regs', outcome, b', done' := TakeCode(regs, cs, code, b, before, order, done);
      CodeTaken(cs, b, r, n, done, all, outcome, b', done');
    }

    /** The end code ends the raster after its last block; an error ends it at once. */
    method Conclude(s: Context, len: nat, status: Status) returns (result: Rendered)
      requires s.pos <= |s.buffer|
      modifies s
      ensures if status == Finished then result == Complete && s.pos == BlocksEnd(s.buffer, old(s.pos), len)
              else result == Wrong(status)
    {
      if status == Finished {
        SkipBlocks(s, len);
        result := Complete;
      } else {
        result := Wrong(status);
      }
    }

    /** Moves one byte from the blocks into the bit buffer; false at the end of the blocks. */
    method NextByte(s: Context, len: nat, bits: nat, validBits: nat, ghost payload: seq<byte>, ghost r: nat,
                    ghost n: nat, ghost end: nat)
      returns (more: bool, len': nat, bits': nat, validBits': nat, ghost payload': seq<byte>)
      requires InBlocks(s, len, payload, end) && Buffered(bits, validBits, payload, r, n) && validBits < 13
      modifies s
      ensures more ==> |payload'| < |payload| && InBlocks(s, len', payload', end)
      ensures more ==> Buffered(bits', validBits', payload', r, n)
      ensures !more ==> s.pos == end && n == validBits
    {
      len', bits', validBits', payload' := len, bits, validBits, payload;
      BlockStarts(s.buffer, s.pos, len);
      if len' == 0 {
        len' := s.Get8();
        if len' == 0 {
          return false, len', bits', validBits', payload';
        }
      }
      BlockGoesOn(s.buffer, s.pos, len');
      BufferByte(bits, validBits, payload, r, n);
      var v := s.Get8();
      len' := len' - 1;
      bits' := Join(bits, validBits, v);
      validBits' := validBits + 8;
      payload' := payload[1..];
      more := true;
    }

    /** Skips the rest of this block and the blocks after it. */
    method SkipBlocks(s: Context, len: nat)
      requires s.pos <= |s.buffer|
      modifies s
      ensures s.pos == BlocksEnd(s.buffer, old(s.pos), len) <= |s.buffer|
    {
      s.SkipBytes(len);
      var n: nat := s.Get8();
      while n > 0
        invariant s.pos <= |s.buffer|
        invariant (if n > 0 then BlocksEnd(s.buffer, s.pos, n) else s.pos) == BlocksEnd(s.buffer, old(s.pos), len)
        decreases |s.buffer| - s.pos, n
      {
        s.SkipBytes(n);
        n := s.Get8();
      }
    }
  }

  ghost function NewEntries(cs: nat, b: Book, code: nat): seq<seq<byte>>
    requires IsBook(cs, b) && (code == Avail(cs, b.entries) || IsLive(cs, b.entries, code))
  {
    if b.last == [] then b.entries else b.entries + [Extension(cs, b, code)]
  }

  /** A code that stands for a string: the new dictionary and registers. */
  lemma DataStep(cs: nat, b: Book, regs: Registers, code: nat, done: seq<byte>)
    requires Stand(cs, b, regs) && code <= regs.avail && code != Clear(cs) && code != Clear(cs) + 1 && b.started
    requires if b.last == [] then code < regs.avail else regs.avail < MAX_CODES
    ensures var entries, step := NewEntries(cs, b, code), Step(cs, b, code);
            && IsLive(cs, entries, code) && step.More? && step.book.entries == entries
            && Does(step, Going, step.book, done, done + WordOf(cs, entries, code))
            && Stand(cs, step.book, Registers(Grow(b.size, Avail(cs, entries)), Avail(cs, entries), code, false))
  {
    StepIsBook(cs, b, code);
  }

  datatype Outcome = Going | Ended(status: Status)

  /** The outcome of a step: the dictionary after it, and what has been painted. */
  ghost predicate Does(step: Next, outcome: Outcome, b': Book, done: seq<byte>, done': seq<byte>) {
    match step
    case More(book, word) => outcome == Going && b' == book && done' == done + word
    case Halt(status) => outcome == Ended(status) && done' == done
  }

  // ----- Data blocks -----

  /** The bytes left in a block and in the blocks after it, up to the empty one. */
  function Payload(s: seq<byte>, pos: nat, len: nat): seq<byte>
    decreases if pos < |s| then |s| - pos else 0, len
  {
    if len > 0 then [At(s, pos)] + Payload(s, Skip(s, pos, 1), len - 1)
    else if pos >= |s| || s[pos] == 0 then []
    else Payload(s, pos + 1, s[pos])
  }

  /** The position after the empty block. */
  function BlocksEnd(s: seq<byte>, pos: nat, len: nat): nat
    decreases if pos < |s| then |s| - pos else 0
  {
    var next := Skip(s, pos, len);
    if At(s, next) == 0 then Skip(s, next, 1) else BlocksEnd(s, next + 1, At(s, next))
  }

  ghost function DecodeBlocks(cs: nat, s: seq<byte>, pos: nat): Decoded
    requires cs <= 12
  {
    Pow2Monotone(cs, 12);
    assert Pow2(12) == 4096;
    var payload := Payload(s, pos, 0);
    Decode(cs, Cleared(cs, false), Val(payload), 8 * |payload|)
  }

  datatype Rendered = Complete | BadFrame | BadCodeSize | Wrong(status: Status)

  datatype Rastered = Rastered(word: seq<byte>, result: Rendered, end: nat)

  /** The indices of a whole raster, how it ends, and where. */
  ghost function Raster(s: seq<byte>, pos: nat): Rastered {
    var cs, start := At(s, pos), Skip(s, pos, 1);
    if cs > 12 then Rastered([], BadCodeSize, start)
    else
      var d := DecodeBlocks(cs, s, start);
      Rastered(d.word, if d.status == Finished then Complete else Wrong(d.status), BlocksEnd(s, start, 0))
  }

  /** The payload to come, and where the raster ends. */
  ghost predicate InBlocks(s: Context, len: nat, payload: seq<byte>, end: nat)
    reads s
  {
    s.pos <= |s.buffer| && payload == Payload(s.buffer, s.pos, len) && end == BlocksEnd(s.buffer, s.pos, len)
  }

  /** The n bits of r are still to be taken: those in the bit buffer, then those of the payload. At most
  twenty bits are buffered, so that the buffer fits an int. */
  ghost predicate Buffered(bits: nat, validBits: nat, payload: seq<byte>, r: nat, n: nat) {
    && bits < Pow2(validBits) && validBits <= 20 && r == Join(bits, validBits, Val(payload))
    && n == validBits + 8 * |payload|
  }

  /** Of all that is to be decoded, done has been; the rest is in the n bits of r. */
  ghost predicate Remains(cs: nat, b: Book, r: nat, n: nat, done: seq<byte>, all: Decoded) {
    IsBook(cs, b) && all == Decoded(done + Decode(cs, b, r, n).word, Decode(cs, b, r, n).status)
  }

  /** How the raster ends; after the end code nothing of it is left. */
  ghost predicate Over(all: Decoded, result: Rendered, pos: nat, end: nat) {
    if all.status == Finished then result == Complete && pos == end else result == Wrong(all.status)
  }

  function StartRegisters(cs: nat): Registers {
    Registers(cs + 1, Pow2(cs) + 2, -1, true)
  }

  lemma DecodingStarts(cs: nat, s: Context)
    requires cs <= 12 && s.pos <= |s.buffer|
    ensures var payload := Payload(s.buffer, s.pos, 0);
            && Remains(cs, Cleared(cs, false), Val(payload), 8 * |payload|, [], DecodeBlocks(cs, s.buffer, s.pos))
            && Stand(cs, Cleared(cs, false), StartRegisters(cs))
  {
    var all := DecodeBlocks(cs, s.buffer, s.pos);
    assert [] + all.word == all.word;
    Pow2Monotone(cs, 12);
    assert Pow2(12) == 4096;
  }

  lemma NoMoreCodes(cs: nat, b: Book, r: nat, n: nat, done: seq<byte>, all: Decoded)
    requires Remains(cs, b, r, n, done, all) && n < b.size
    ensures all == Decoded(done, Finished)
  {
    assert done + [] == done;
  }

  lemma BufferDrop(bits: nat, validBits: nat, payload: seq<byte>, r: nat, n: nat, size: nat)
    requires Buffered(bits, validBits, payload, r, n) && size <= validBits
    ensures size <= n && Low(r, size) == Low(bits, size)
    ensures Buffered(Drop(bits, size), validBits - size, payload, Drop(r, size), n - size)
  {
    BufferSplit(bits, size, validBits, Val(payload));
    DropBound(bits, size, validBits - size);
  }

  lemma BufferByte(bits: nat, validBits: nat, payload: seq<byte>, r: nat, n: nat)
    requires Buffered(bits, validBits, payload, r, n) && payload != [] && validBits < 13
    ensures Buffered(Join(bits, validBits, payload[0]), validBits + 8, payload[1..], r, n)
  {
    assert Pow2(8) == 256;
    JoinBound(bits, validBits, payload[0], 8);
    JoinAssoc(bits, validBits, payload[0], 8, Val(payload[1..]));
  }

  lemma BlockStarts(s: seq<byte>, pos: nat, len: nat)
    requires pos <= |s|
    ensures len == 0 && At(s, pos) == 0 ==> Payload(s, pos, 0) == [] && BlocksEnd(s, pos, 0) == Skip(s, pos, 1)
    ensures len == 0 && At(s, pos) != 0 ==>
              Payload(s, pos, 0) == Payload(s, Skip(s, pos, 1), At(s, pos))
              && BlocksEnd(s, pos, 0) == BlocksEnd(s, Skip(s, pos, 1), At(s, pos))
  {
  }

  lemma BlockGoesOn(s: seq<byte>, pos: nat, len: nat)
    requires pos <= |s| && 0 < len
    ensures var payload, next := Payload(s, pos, len), Skip(s, pos, 1);
            && payload != [] && payload[0] == At(s, pos) && payload[1..] == Payload(s, next, len - 1)
            && BlocksEnd(s, pos, len) == BlocksEnd(s, next, len - 1)
  {
    var next := Skip(s, pos, 1);
    assert Payload(s, pos, len) == [At(s, pos)] + Payload(s, next, len - 1);
    SkipAgain(s, pos, 1, len - 1);
  }

  /** A code has been taken from the front of the bits to come. */
  lemma CodeTaken(cs: nat, b: Book, r: nat, n: nat, done: seq<byte>, all: Decoded, outcome: Outcome, b': Book,
                  done': seq<byte>)
    requires Remains(cs, b, r, n, done, all) && b.size <= n
    requires Does(Step(cs, b, Low(r, b.size)), outcome, b', done, done')
    ensures if outcome.Ended? then all == Decoded(done', outcome.status)
            else Remains(cs, b', Drop(r, b.size), n - b.size, done', all)
  {
    var step := Step(cs, b, Low(r, b.size));
    if step.More? {
      StepIsBook(cs, b, Low(r, b.size));
      Associates(done, step.word, Decode(cs, step.book, Drop(r, b.size), n - b.size).word);
    } else {
      assert done + [] == done;
    }
  }

  // ----- What a frame looks like -----

  /** The k-th pixel of the frame, in painting order, shows the k-th index of the raster, unless the
  colour is transparent; pixels past the end of the raster and outside the frame keep their colour. */
  lemma FramePixels(f: Frame, height: nat, c: Canvas, table: ColorTable, word: seq<byte>, at: nat)
    requires f.Fits(height) && |c.history| == Span(f.width, height) && OnCanvas(c, at)
    ensures |c.out| == 4 * |c.history| && AllOnCanvas(c, Order(f))
    ensures var d, order := Paint(c, table, Order(f), word), Order(f);
            && (forall k :: 0 <= k < |order| && k < |word| && order[k] == at ==>
                  var t := 4 * word[k] as int;
                  Pixel(d, at) == if table[t + 3] > 128 then [table[t + 2], table[t + 1], table[t], table[t + 3]]
                                  else Pixel(c, at))
            && ((forall k :: 0 <= k < |order| && k < |word| ==> order[k] != at) ==> Pixel(d, at) == Pixel(c, at))
            && (!InFrame(f, at) ==> Pixel(d, at) == Pixel(c, at))
  {
    OrderOnCanvas(f, height, c);
    OrderDistinct(f);
    var order := Order(f);
    forall k | 0 <= k < |order| && k < |word| && order[k] == at
      ensures var d := Paint(c, table, order, word);
              Pixel(d, at) == if Color(table, word[k])[3] > 128 then Color(table, word[k]) else Pixel(c, at)
    {
      PaintAt(c, table, order, word, k, order[k], word[k]);
    }
    if forall k :: 0 <= k < |order| && k < |word| ==> order[k] != at {
      PaintElsewhere(c, table, order, word, at);
    }
    OrderIsFrame(f, at);
    if !InFrame(f, at) {
      assert at !in order;
      PaintElsewhere(c, table, order, word, at);
    }
  }

  // ----- The cursor -----

  /** The byte offsets of a frame's edges. */
  ghost predicate Bounds(f: Frame, lineSize: nat, startX: nat, startY: nat, maxX: nat, maxY: nat) {
    f.left + f.w <= f.width && lineSize == 4 * f.width && startX == 4 * f.left && maxX == 4 * (f.left + f.w)
    && startY == f.RowStart(0) && maxY == f.RowStart(f.h)
  }

  ghost predicate Steps(f: Frame, parse: nat, step: nat) {
    parse <= 3 && (!f.interlaced ==> parse == 0) && step == 4 * Span(f.width, Spacing(f.interlaced, parse))
  }

  ghost predicate Stands(f: Frame, maxY: nat, curX: nat, curY: nat, x: nat, y: nat) {
    if y < f.h then x < f.w && curX == 4 * (f.left + x) && curY == f.RowStart(y) else curY >= maxY
  }

  /** The bytes of k canvas rows. */
  function RowBytes(width: nat, k: nat): (bytes: nat)
    ensures bytes == 4 * Span(width, k)
  {
    SpanIsProduct(width, k);
    assert k * (width * 4) == 4 * (width * k);
    k * (width * 4)
  }

  lemma OneRow(width: nat)
    ensures Span(width, 1) == width
  {
    assert Span(width, 0) == 0;
  }

  lemma EightRows(width: nat)
    ensures Span(width, 8) == 8 * width
  {
    SpanIsProduct(width, 8);
  }

  lemma RowDown(f: Frame, y: nat, parse: nat)
    ensures f.RowStart(y) + 4 * Span(f.width, Spacing(f.interlaced, parse))
         == f.RowStart(y + Spacing(f.interlaced, parse))
  {
    SpanAdd(f.width, f.top + y, Spacing(f.interlaced, parse));
  }

  /** The cursor is past the last row exactly when its offset is past the last byte. */
  lemma BelowFrame(f: Frame, y: nat)
    ensures f.width > 0 ==> (f.RowStart(y) >= f.RowStart(f.h) <==> y >= f.h)
  {
    if y < f.h {
      SpanMonotone(f.width, f.top + y, f.top + f.h);
    } else {
      SpanMonotone(f.width, f.top + f.h, f.top + y);
    }
  }

  lemma {:induction false} NoCells(f: Frame, rows: seq<nat>)
    requires f.w == 0
    ensures Cells(f, rows) == []
  {
    if rows != [] {
      NoCells(f, rows[1..]);
    }
  }

  lemma OrderStarts(f: Frame, y: nat)
    requires y == if f.w == 0 then f.h else 0
    ensures OrderFrom(f, 0, y, Passes(f.interlaced)) == Order(f)
  {
    if f.w == 0 {
      NoCells(f, Rows(f.interlaced, f.h));
    } else {
      AheadOfRow(f, 0, Passes(f.interlaced));
      if f.h == 0 {
        RowsOfNothing(f.interlaced, Passes(f.interlaced));
      }
    }
  }

  lemma {:induction false} RowsOfNothing(interlaced: bool, parse: nat)
    ensures Later(interlaced, parse, 0) == [] && RowsFrom(0, interlaced, parse, 0) == []
  {
    if parse > 0 {
      RowsOfNothing(interlaced, parse - 1);
    }
  }

  /** At the start of a row the order ahead is that of the rows ahead. */
  lemma AheadOfRow(f: Frame, y: nat, parse: nat)
    ensures y < f.h || parse == 0 ==> OrderFrom(f, 0, y, parse) == Cells(f, RowsFrom(y, f.interlaced, parse, f.h))
  {
  }

  /** The pixel under the cursor is the next of the order. */
  lemma AheadStarts(f: Frame, x: nat, y: nat, parse: nat)
    requires y < f.h && x < f.w
    ensures var order := OrderFrom(f, x, y, parse);
            order != [] && order[0] == f.Offset(x, y) == 4 * (f.left + x) + f.RowStart(y)
  {
  }

  /** After the last pixel of a row come the rows of the same pass and the later passes. */
  lemma RowEnds(f: Frame, x: nat, y: nat, parse: nat)
    requires y < f.h && x < f.w
    ensures OrderFrom(f, x, y, parse) != []
    ensures OrderFrom(f, x, y, parse)[1..] ==
              if x + 1 < f.w then OrderFrom(f, x + 1, y, parse)
              else Cells(f, RowsFrom(y + Spacing(f.interlaced, parse), f.interlaced, parse, f.h))
  {
    RowsDown(y, f.interlaced, parse, f.h);
    var later := Cells(f, RowsFrom(y, f.interlaced, parse, f.h)[1..]);
    FirstGoes(f.Offset(x, y), RowCells(f, x + 1, y), later);
    if x + 1 == f.w {
      assert RowCells(f, x + 1, y) == [];
    }
  }

  lemma FirstGoes(a: nat, b: seq<nat>, c: seq<nat>)
    ensures ([a] + b + c)[1..] == b + c
  {
  }

  lemma RowsDown(y: nat, interlaced: bool, parse: nat, h: nat)
    requires y < h
    ensures RowsFrom(y, interlaced, parse, h) != []
    ensures RowsFrom(y, interlaced, parse, h)[1..] == RowsFrom(y + Spacing(interlaced, parse), interlaced, parse, h)
  {
    var step := Spacing(interlaced, parse);
    assert Strided(y, step, h) == [y] + Strided(y + step, step, h);
  }

  /** Below the frame, the rows ahead are those of the next pass. */
  lemma PassRows(f: Frame, y: nat, parse: nat)
    requires 0 < parse <= 3 && f.interlaced && f.h <= y
    ensures RowsFrom(y, true, parse, f.h) == RowsFrom(PassStart(parse), true, parse - 1, f.h)
  {
  }

  /** The byte distances of a pass. */
  lemma PassSteps(f: Frame, parse: nat)
    requires 0 < parse <= 3
    ensures Pow2(parse) * (4 * f.width) == 4 * Span(f.width, Spacing(true, parse - 1))
    ensures f.RowStart(0) + Pow2(parse) * (4 * f.width) / 2 == f.RowStart(PassStart(parse))
  {
    var s := PassStart(parse);
    PassSpacing(parse);
    SpanIsProduct(f.width, s);
    SpanAdd(f.width, s, s);
    SpanAdd(f.width, f.top, s);
    Doubled(f.width, s);
  }

  lemma PassSpacing(parse: nat)
    requires 0 < parse <= 3
    ensures Pow2(parse) == 2 * PassStart(parse) == Spacing(true, parse - 1)
  {
    assert Pow2(1) == 2 && Pow2(2) == 4 && Pow2(3) == 8;
  }

  lemma Doubled(a: nat, b: nat)
    ensures 2 * b * (4 * a) == 4 * (a * b + a * b)
  {
  }
}
