/** Painting colour indices onto a canvas, one after the other along a painting order. */
module GifPaint {
  import opened Bits
  import Spans
  import opened GifCursor

  const TABLE_BYTES := 1024

  type ColorTable = t: seq<byte> | |t| == TABLE_BYTES witness seq(TABLE_BYTES, _ => 0)

  /** Four bytes to a pixel, and which pixels have been painted in this frame. */
  datatype Canvas = Canvas(out: seq<byte>, history: seq<byte>)

  predicate OnCanvas(c: Canvas, at: nat) {
    at % 4 == 0 && at / 4 < |c.history| && |c.out| == 4 * |c.history|
  }

  predicate AllOnCanvas(c: Canvas, order: seq<nat>) {
    forall i :: 0 <= i < |order| ==> OnCanvas(c, order[i])
  }

  /** One pixel; transparent colours leave the canvas as it is, but count as painted. */
  function Plot(c: Canvas, table: ColorTable, at: nat, index: byte): (d: Canvas)
    requires OnCanvas(c, at)
    ensures |d.out| == |c.out| && |d.history| == |c.history|
  {
    var k := 4 * index as int;
    Canvas(if table[k + 3] > 128
           then c.out[at := table[k + 2]][at + 1 := table[k + 1]][at + 2 := table[k]][at + 3 := table[k + 3]]
           else c.out,
           c.history[at / 4 := 1])
  }

  /** All indices, for as long as the order lasts. */
  function Paint(c: Canvas, table: ColorTable, order: seq<nat>, word: seq<byte>): (d: Canvas)
    requires AllOnCanvas(c, order)
    ensures |d.out| == |c.out| && |d.history| == |c.history|
    decreases |order|
  {
    if order == [] || word == [] then c else
      assert OnCanvas(c, order[0]);
      var d := Plot(c, table, order[0], word[0]);
      StillOnCanvas(c, d, order);
      Paint(d, table, order[1..], word[1..])
  }

  lemma StillOnCanvas(c: Canvas, d: Canvas, order: seq<nat>)
    requires AllOnCanvas(c, order) && |d.out| == |c.out| && |d.history| == |c.history|
    ensures AllOnCanvas(d, order)
    ensures order != [] ==> AllOnCanvas(d, order[1..])
  {
    forall i | 0 <= i < |order| ensures OnCanvas(d, order[i]) {
      assert OnCanvas(c, order[i]);
    }
  }

  function Rest(order: seq<nat>, k: nat): seq<nat> {
    if k <= |order| then order[k..] else []
  }

  /** Painting two strings one after the other. */
  lemma {:induction false} PaintAppend(c: Canvas, table: ColorTable, order: seq<nat>, a: seq<byte>, b: seq<byte>)
    requires AllOnCanvas(c, order)
    ensures AllOnCanvas(Paint(c, table, order, a), Rest(order, |a|))
    ensures Paint(c, table, order, a + b) == Paint(Paint(c, table, order, a), table, Rest(order, |a|), b)
    decreases |order|
  {
    if order == [] {
      assert Rest(order, |a|) == [];
    } else if a == [] {
      assert a + b == b && Rest(order, 0) == order;
    } else {
      PaintNext(c, table, order, a);
      PaintNext(c, table, order, a + b);
      assert (a + b)[0] == a[0] && (a + b)[1..] == a[1..] + b;
      PaintAppend(Plot(c, table, order[0], a[0]), table, order[1..], a[1..], b);
      RestRest(order, 1, |a| - 1);
    }
  }

  lemma PaintNext(c: Canvas, table: ColorTable, order: seq<nat>, word: seq<byte>)
    requires AllOnCanvas(c, order) && order != [] && word != []
    ensures OnCanvas(c, order[0])
    ensures var d := Plot(c, table, order[0], word[0]);
            AllOnCanvas(d, order[1..]) && Paint(c, table, order, word) == Paint(d, table, order[1..], word[1..])
  {
    assert OnCanvas(c, order[0]);
    StillOnCanvas(c, Plot(c, table, order[0], word[0]), order);
  }

  lemma PaintOne(c: Canvas, table: ColorTable, order: seq<nat>, index: byte)
    requires AllOnCanvas(c, order) && order != []
    ensures OnCanvas(c, order[0]) && Paint(c, table, order, [index]) == Plot(c, table, order[0], index)
    ensures AllOnCanvas(Plot(c, table, order[0], index), order[1..])
  {
    PaintNext(c, table, order, [index]);
  }

  lemma RestRest(order: seq<nat>, j: nat, k: nat)
    ensures Rest(Rest(order, j), k) == Rest(order, j + k)
  {
  }

  // ----- What is on the canvas afterwards -----

  predicate Distinct(order: seq<nat>) {
    forall i, j :: 0 <= i < j < |order| ==> order[i] != order[j]
  }

  /** The pixel at an offset, as four bytes. */
  function Pixel(c: Canvas, at: nat): seq<byte>
    requires OnCanvas(c, at)
  {
    c.out[at..at + 4]
  }

  function Color(table: ColorTable, index: byte): seq<byte> {
    var k := 4 * index as int;
    [table[k + 2], table[k + 1], table[k], table[k + 3]]
  }

  lemma PlotElsewhere(c: Canvas, table: ColorTable, at: nat, index: byte, other: nat)
    requires OnCanvas(c, at) && OnCanvas(c, other) && other != at
    ensures var d := Plot(c, table, at, index);
            Pixel(d, other) == Pixel(c, other) && d.history[other / 4] == c.history[other / 4]
  {
  }

  lemma PlotHere(c: Canvas, table: ColorTable, at: nat, index: byte)
    requires OnCanvas(c, at)
    ensures var d := Plot(c, table, at, index);
            d.history[at / 4] == 1
            && Pixel(d, at) == if Color(table, index)[3] > 128 then Color(table, index) else Pixel(c, at)
  {
  }

  /** A pixel not reached by the painting keeps its colour. */
  lemma {:induction false} PaintElsewhere(c: Canvas, table: ColorTable, order: seq<nat>, word: seq<byte>, other: nat)
    requires AllOnCanvas(c, order) && OnCanvas(c, other)
    requires forall i :: 0 <= i < |order| && i < |word| ==> order[i] != other
    ensures var d := Paint(c, table, order, word);
            Pixel(d, other) == Pixel(c, other) && d.history[other / 4] == c.history[other / 4]
    decreases |order|
  {
    if order != [] && word != [] {
      assert OnCanvas(c, order[0]);
      var d := Plot(c, table, order[0], word[0]);
      StillOnCanvas(c, d, order);
      PlotElsewhere(c, table, order[0], word[0], other);
      assert OnCanvas(d, other);
      PaintElsewhere(d, table, order[1..], word[1..], other);
    }
  }

  /** The pixel shows the index once, unless that is transparent. */
  predicate Shows(c: Canvas, d: Canvas, table: ColorTable, at: nat, index: byte)
    requires OnCanvas(c, at) && OnCanvas(d, at)
  {
    && d.history[at / 4] == 1
    && Pixel(d, at) == if Color(table, index)[3] > 128 then Color(table, index) else Pixel(c, at)
  }

  lemma PaintFirst(c: Canvas, table: ColorTable, order: seq<nat>, word: seq<byte>, at: nat, index: byte)
    requires AllOnCanvas(c, order) && Distinct(order) && order != [] && word != []
    requires at == order[0] && index == word[0]
    ensures OnCanvas(c, at) && Shows(c, Paint(c, table, order, word), table, at, index)
  {
    assert OnCanvas(c, order[0]);
    var d := Plot(c, table, at, index);
    StillOnCanvas(c, d, order);
    PlotHere(c, table, at, index);
    assert OnCanvas(d, at);
    PaintElsewhere(d, table, order[1..], word[1..], at);
  }

  /** The k-th pixel of the order gets the colour of the k-th index, and nothing else changes it. */
  lemma {:induction false} PaintAt(c: Canvas, table: ColorTable, order: seq<nat>, word: seq<byte>, k: nat, at: nat,
                                   index: byte)
    requires AllOnCanvas(c, order) && Distinct(order) && k < |order| && k < |word|
    requires at == order[k] && index == word[k]
    ensures OnCanvas(c, at) && Shows(c, Paint(c, table, order, word), table, at, index)
    decreases |order|
  {
    if k == 0 {
      PaintFirst(c, table, order, word, at, index);
    } else {
      assert OnCanvas(c, order[k]) && OnCanvas(c, order[0]);
      var d := Plot(c, table, order[0], word[0]);
      StillOnCanvas(c, d, order);
      PlotElsewhere(c, table, order[0], word[0], at);
      PaintAt(d, table, order[1..], word[1..], k - 1, at, index);
    }
  }

  /** The painting order of a frame names no pixel twice. */
  lemma OrderDistinct(f: Frame)
    requires f.left + f.w <= f.width
    ensures Distinct(Order(f))
  {
    var order := Order(f);
    forall i, j | 0 <= i < j < |order| ensures order[i] != order[j] {
      OrderIsFrame(f, order[i]);
      TwiceCounted(order, i, j);
    }
  }

  lemma TwiceCounted(order: seq<nat>, i: nat, j: nat)
    requires i < j < |order|
    ensures order[i] == order[j] ==> multiset(order)[order[i]] >= 2
  {
    var front, back := order[..i + 1], order[i + 1..];
    assert order == front + back;
    assert front[i] == order[i] && back[j - i - 1] == order[j];
    assert order[i] in multiset(front) && order[j] in multiset(back);
  }

  lemma OrderOnCanvas(f: Frame, height: nat, c: Canvas)
    requires f.Fits(height) && |c.history| == Spans.Span(f.width, height) && |c.out| == 4 * |c.history|
    ensures AllOnCanvas(c, Order(f))
  {
    var order := Order(f);
    forall i | 0 <= i < |order| ensures OnCanvas(c, order[i]) {
      OrderIsFrame(f, order[i]);
      assert order[i] in multiset(order);
      InFrameOnCanvas(f, height, order[i]);
    }
  }
}
