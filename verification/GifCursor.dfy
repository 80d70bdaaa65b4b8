/** The order in which a GIF frame is painted: row by row, or in four interlaced passes over the rows.
Appendix E of the GIF89a specification. */
module GifCursor {
  import opened Spans

  /** A frame of w by h pixels at (left, top) on a canvas of the given width. */
  datatype Frame = Frame(width: nat, left: nat, top: nat, w: nat, h: nat, interlaced: bool) {
    predicate Fits(height: nat) {
      left + w <= width && top + h <= height
    }

    /** Pixel (x, y) of the frame among those of the canvas. */
    function Cell(x: nat, y: nat): nat {
      Span(width, top + y) + left + x
    }

    /** Where row y begins on the canvas. */
    function RowStart(y: nat): nat {
      4 * Span(width, top + y)
    }

    /** Where it lies on the canvas, four bytes to a pixel. */
    function Offset(x: nat, y: nat): nat {
      4 * Cell(x, y)
    }
  }

  // ----- Rows -----

  /** Every step-th row from the given one on. */
  function Strided(from: nat, step: nat, h: nat): seq<nat>
    requires 0 < step
    decreases if from < h then h - from else 0
  {
    if from >= h then [] else [from] + Strided(from + step, step, h)
  }

  /** The row spacing while parse more passes are to come. */
  function Spacing(interlaced: bool, parse: nat): (step: nat)
    ensures 0 < step
  {
    if !interlaced then 1
    else if parse >= 2 then 8
    else if parse == 1 then 4
    else 2
  }

  /** The first row of the pass that begins when parse passes are left. */
  function PassStart(parse: nat): nat {
    if parse >= 3 then 4 else if parse == 2 then 2 else 1
  }

  /** The rows of the passes to come. */
  function Later(interlaced: bool, parse: nat, h: nat): seq<nat> {
    if parse == 0 then [] else
      Strided(PassStart(parse), Spacing(interlaced, parse - 1), h) + Later(interlaced, parse - 1, h)
  }

  /** The rows from y on: the rest of this pass, then the others. */
  function RowsFrom(y: nat, interlaced: bool, parse: nat, h: nat): seq<nat> {
    Strided(y, Spacing(interlaced, parse), h) + Later(interlaced, parse, h)
  }

  function Passes(interlaced: bool): nat {
    if interlaced then 3 else 0
  }

  function Rows(interlaced: bool, h: nat): seq<nat> {
    RowsFrom(0, interlaced, Passes(interlaced), h)
  }

  /** Whether a pass from the given row, with one of the four spacings, comes by row y. */
  predicate ComesBy(from: nat, step: nat, y: nat)
    requires step in {1, 2, 4, 8}
  {
    from <= y && (y - from) % step == 0
  }

  lemma {:induction false} StridedCount(from: nat, step: nat, h: nat, y: nat)
    requires step in {1, 2, 4, 8}
    ensures multiset(Strided(from, step, h))[y] == if y < h && ComesBy(from, step, y) then 1 else 0
    decreases if from < h then h - from else 0
  {
    if from < h {
      StridedCount(from + step, step, h, y);
      CountCons(from, Strided(from + step, step, h), y);
      ComesByNext(from, step, y);
    }
  }

  lemma ComesByNext(from: nat, step: nat, y: nat)
    requires step in {1, 2, 4, 8}
    ensures ComesBy(from, step, y) <==> y == from || ComesBy(from + step, step, y)
    ensures !ComesBy(from + step, step, from)
  {
    var d := y - from;
    if step == 1 {
      assert d % 1 == 0;
    } else if step == 2 {
      LessTwo(d);
    } else if step == 4 {
      LessFour(d);
    } else {
      LessEight(d);
    }
  }

  lemma LessTwo(d: int)
    ensures (d - 2) % 2 == d % 2 && (0 < d < 2 ==> d % 2 != 0)
  {
  }

  lemma LessFour(d: int)
    ensures (d - 4) % 4 == d % 4 && (0 < d < 4 ==> d % 4 != 0)
  {
  }

  lemma LessEight(d: int)
    ensures (d - 8) % 8 == d % 8 && (0 < d < 8 ==> d % 8 != 0)
  {
  }

  /** Every row of the frame comes once, whether interlaced or not. */
  lemma RowsArePermutation(interlaced: bool, h: nat, y: nat)
    ensures multiset(Rows(interlaced, h))[y] == if y < h then 1 else 0
  {
    if interlaced {
      var a, b, c, d := Strided(0, 8, h), Strided(4, 8, h), Strided(2, 4, h), Strided(1, 2, h);
      InterlacedRows(h);
      FourCounts(a, b, c, d, y);
      StridedCount(0, 8, h, y);
      StridedCount(4, 8, h, y);
      StridedCount(2, 4, h, y);
      StridedCount(1, 2, h, y);
      OnePass(y);
    } else {
      StridedCount(0, 1, h, y);
      assert Later(false, 0, h) == [];
    }
  }

  lemma FourCounts(a: seq<nat>, b: seq<nat>, c: seq<nat>, d: seq<nat>, y: nat)
    ensures multiset(a + (b + (c + d)))[y] == multiset(a)[y] + multiset(b)[y] + multiset(c)[y] + multiset(d)[y]
  {
  }

  lemma InterlacedRows(h: nat)
    ensures Rows(true, h) == Strided(0, 8, h) + (Strided(4, 8, h) + (Strided(2, 4, h) + Strided(1, 2, h)))
  {
    assert Later(true, 0, h) == [];
    assert Later(true, 1, h) == Strided(1, 2, h);
    assert Later(true, 2, h) == Strided(2, 4, h) + Later(true, 1, h);
    assert Later(true, 3, h) == Strided(4, 8, h) + Later(true, 2, h);
  }

  /** Every row number belongs to exactly one pass. */
  lemma OnePass(y: nat)
    ensures (if ComesBy(0, 8, y) then 1 else 0) + (if ComesBy(4, 8, y) then 1 else 0)
          + (if ComesBy(2, 4, y) then 1 else 0) + (if ComesBy(1, 2, y) then 1 else 0) == 1
  {
  }

  // ----- Pixels -----

  /** The offsets of row y from column x on. */
  function RowCells(f: Frame, x: nat, y: nat): seq<nat>
    decreases if x < f.w then f.w - x else 0
  {
    if x >= f.w then [] else [f.Offset(x, y)] + RowCells(f, x + 1, y)
  }

  function Cells(f: Frame, rows: seq<nat>): seq<nat> {
    if rows == [] then [] else RowCells(f, 0, rows[0]) + Cells(f, rows[1..])
  }

  /** The whole painting order of a frame. */
  function Order(f: Frame): seq<nat> {
    Cells(f, Rows(f.interlaced, f.h))
  }

  /** The painting order from column x of row y on. */
  function OrderFrom(f: Frame, x: nat, y: nat, parse: nat): seq<nat> {
    if y >= f.h then [] else RowCells(f, x, y) + Cells(f, RowsFrom(y, f.interlaced, parse, f.h)[1..])
  }

  lemma OffsetUnique(f: Frame, x: nat, y: nat, x': nat, y': nat)
    requires f.left + x < f.width && f.left + x' < f.width && f.Offset(x, y) == f.Offset(x', y')
    ensures x == x' && y == y'
  {
    PlaceInStep(f.width, f.top + y, f.left + x, f.top + y', f.left + x');
  }

  lemma CountCons(a: nat, rest: seq<nat>, b: nat)
    ensures multiset([a] + rest)[b] == multiset(rest)[b] + if a == b then 1 else 0
  {
    assert multiset([a] + rest) == multiset{a} + multiset(rest);
  }

  lemma CountAppend(a: seq<nat>, b: seq<nat>, x: nat)
    ensures multiset(a + b)[x] == multiset(a)[x] + multiset(b)[x]
  {
  }

  lemma {:induction false} RowCellsCount(f: Frame, from: nat, row: nat, x: nat, y: nat)
    requires f.left + f.w <= f.width && x < f.w
    ensures multiset(RowCells(f, from, row))[f.Offset(x, y)] == if row == y && from <= x then 1 else 0
    decreases if from < f.w then f.w - from else 0
  {
    if from < f.w {
      RowCellsCount(f, from + 1, row, x, y);
      CountCons(f.Offset(from, row), RowCells(f, from + 1, row), f.Offset(x, y));
      if f.Offset(from, row) == f.Offset(x, y) {
        OffsetUnique(f, from, row, x, y);
      }
    }
  }

  lemma {:induction false} CellsCount(f: Frame, rows: seq<nat>, x: nat, y: nat)
    requires f.left + f.w <= f.width && x < f.w
    ensures multiset(Cells(f, rows))[f.Offset(x, y)] == multiset(rows)[y]
  {
    if rows != [] {
      CellsCount(f, rows[1..], x, y);
      RowCellsCount(f, 0, rows[0], x, y);
      CountAppend(RowCells(f, 0, rows[0]), Cells(f, rows[1..]), f.Offset(x, y));
      CountCons(rows[0], rows[1..], y);
      assert rows == [rows[0]] + rows[1..];
    }
  }

  /** Every pixel of the frame is painted exactly once. */
  lemma EveryPixelOnce(f: Frame, x: nat, y: nat)
    requires f.left + f.w <= f.width && x < f.w && y < f.h
    ensures multiset(Order(f))[f.Offset(x, y)] == 1
  {
    RowsArePermutation(f.interlaced, f.h, y);
    CellsCount(f, Rows(f.interlaced, f.h), x, y);
  }

  ghost predicate InFrame(f: Frame, offset: nat) {
    exists x: nat, y: nat :: x < f.w && y < f.h && offset == f.Offset(x, y)
  }

  lemma {:induction false} RowCellsInFrame(f: Frame, x: nat, y: nat, offset: nat)
    requires y < f.h && offset in RowCells(f, x, y)
    ensures InFrame(f, offset)
    decreases if x < f.w then f.w - x else 0
  {
    if x < f.w && offset != f.Offset(x, y) {
      RowCellsInFrame(f, x + 1, y, offset);
    }
  }

  lemma {:induction false} CellsInFrame(f: Frame, rows: seq<nat>, offset: nat)
    requires forall i :: 0 <= i < |rows| ==> rows[i] < f.h
    requires offset in Cells(f, rows)
    ensures InFrame(f, offset)
  {
    if rows != [] {
      if offset in RowCells(f, 0, rows[0]) {
        RowCellsInFrame(f, 0, rows[0], offset);
      } else {
        CellsInFrame(f, rows[1..], offset);
      }
    }
  }

  lemma RowsInside(interlaced: bool, h: nat)
    ensures forall i :: 0 <= i < |Rows(interlaced, h)| ==> Rows(interlaced, h)[i] < h
  {
    var rows := Rows(interlaced, h);
    forall i | 0 <= i < |rows| ensures rows[i] < h {
      assert rows[i] in multiset(rows);
      RowsArePermutation(interlaced, h, rows[i]);
    }
  }

  /** Nothing outside the frame is painted, and nothing twice. */
  lemma OrderIsFrame(f: Frame, offset: nat)
    requires f.left + f.w <= f.width
    ensures multiset(Order(f))[offset] == if InFrame(f, offset) then 1 else 0
  {
    RowsInside(f.interlaced, f.h);
    if InFrame(f, offset) {
      var x: nat, y: nat :| x < f.w && y < f.h && offset == f.Offset(x, y);
      EveryPixelOnce(f, x, y);
    } else if offset in Order(f) {
      CellsInFrame(f, Rows(f.interlaced, f.h), offset);
      assert false;
    }
  }

  /** A painted pixel lies on the canvas. */
  lemma InFrameOnCanvas(f: Frame, height: nat, offset: nat)
    requires f.Fits(height) && InFrame(f, offset)
    ensures offset % 4 == 0 && offset / 4 < Span(f.width, height)
  {
    var x: nat, y: nat :| x < f.w && y < f.h && offset == f.Offset(x, y);
    SpanMonotone(f.width, f.top + y, height);
  }
}
