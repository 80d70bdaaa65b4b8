/** Interlaced images and back: the pixels of the seven passes, filtered in any way and one pass after the other, are
decoded to the image they were taken from. Clauses 8 and 9 of the PNG specification. */
module InterlacedRoundTrip {
  import opened Bits
  import opened Spans
  import opened Adam7
  import opened PngFile
  import opened PngPixels
  import opened PngRoundTrip
  import BlockFormat
  import PngFilter
  import PngRows
  import PngRowsRoundTrip

  // ----- Taking a pass from an image -----

  /** The bytes of one pixel. */
  function PixelAt(pixels: seq<byte>, w: nat, h: nat, n: nat, x: nat, y: nat): (pixel: seq<byte>)
    requires |pixels| == Size(w, h, n) && 0 < n && x < w && y < h
    ensures |pixel| == n
  {
    PlaceInBounds(w, h, n, x, y, n - 1);
    pixels[Place(w, n, x, y, 0)..Place(w, n, x, y, 0) + n]
  }

  lemma PixelByte(pixels: seq<byte>, w: nat, h: nat, n: nat, x: nat, y: nat, k: nat)
    requires |pixels| == Size(w, h, n) && 0 < n && x < w && y < h && k < n
    ensures Place(w, n, x, y, k) < |pixels| && PixelAt(pixels, w, h, n, x, y)[k] == pixels[Place(w, n, x, y, k)]
  {
    PlaceInBounds(w, h, n, x, y, k);
    var from := Place(w, n, x, y, 0);
    PlaceInBounds(w, h, n, x, y, n - 1);
    assert pixels[from..from + n][k] == pixels[from + k];
  }

  /** The first i pixels of row j of pass p. */
  function PassRow(pixels: seq<byte>, w: nat, h: nat, n: nat, p: nat, j: nat, i: nat): (row: seq<byte>)
    requires |pixels| == Size(w, h, n) && 0 < n && p < 7 && i <= PassWidth(w, p) && j < PassHeight(h, p)
    ensures |row| == Span(n, i)
  {
    if i == 0 then [] else
      PassInBounds(w, h, p, i - 1, j);
      PassRow(pixels, w, h, n, p, j, i - 1) + PixelAt(pixels, w, h, n, Col(p, i - 1), Row(p, j))
  }

  /** The first j rows of pass p. */
  function PassRows(pixels: seq<byte>, w: nat, h: nat, n: nat, p: nat, j: nat): (rows: seq<byte>)
    requires |pixels| == Size(w, h, n) && 0 < n && p < 7 && j <= PassHeight(h, p)
    ensures |rows| == Span(Span(n, PassWidth(w, p)), j)
  {
    if j == 0 then [] else
      PassRows(pixels, w, h, n, p, j - 1) + PassRow(pixels, w, h, n, p, j - 1, PassWidth(w, p))
  }

  /** The pixels of pass p. */
  function PassPixels(pixels: seq<byte>, w: nat, h: nat, n: nat, p: nat): (pass: seq<byte>)
    requires |pixels| == Size(w, h, n) && 0 < n && p < 7
    ensures |pass| == PassSize(w, h, n, p) == Span(Span(n, PassWidth(w, p)), PassHeight(h, p))
  {
    SpanSpan(n, PassWidth(w, p), PassHeight(h, p));
    PassRows(pixels, w, h, n, p, PassHeight(h, p))
  }

  lemma {:induction false} PassRowAt(pixels: seq<byte>, w: nat, h: nat, n: nat, p: nat, j: nat, m: nat, i: nat, k: nat,
                                     at: nat, row: seq<byte>, x: nat, y: nat)
    requires |pixels| == Size(w, h, n) && 0 < n && p < 7 && i < m <= PassWidth(w, p) && j < PassHeight(h, p) && k < n
    requires at == Span(n, i) + k && row == PassRow(pixels, w, h, n, p, j, m)
    requires x == Col(p, i) < w && y == Row(p, j) < h
    ensures at < |row| && row[at] == PixelAt(pixels, w, h, n, x, y)[k]
  {
    if i < m - 1 {
      var before := PassRow(pixels, w, h, n, p, j, m - 1);
      PassRowAt(pixels, w, h, n, p, j, m - 1, i, k, at, before, x, y);
      RowGoesOn(pixels, w, h, n, p, j, m, at, before, row);
    } else {
      SameRow(pixels, w, h, n, p, j, m, i + 1);
      LastOfRow(pixels, w, h, n, p, j, i, k, at, row, x, y);
    }
  }

  lemma RowGoesOn(pixels: seq<byte>, w: nat, h: nat, n: nat, p: nat, j: nat, m: nat, at: nat, before: seq<byte>,
                  row: seq<byte>)
    requires |pixels| == Size(w, h, n) && 0 < n && p < 7 && 0 < m <= PassWidth(w, p) && j < PassHeight(h, p)
    requires before == PassRow(pixels, w, h, n, p, j, m - 1) && row == PassRow(pixels, w, h, n, p, j, m)
    requires at < |before|
    ensures at < |row| && row[at] == before[at]
  {
  }

  lemma SameRow(pixels: seq<byte>, w: nat, h: nat, n: nat, p: nat, j: nat, m: nat, next: nat)
    requires |pixels| == Size(w, h, n) && 0 < n && p < 7 && j < PassHeight(h, p)
    requires m <= PassWidth(w, p) && next <= PassWidth(w, p) && m == next
    ensures PassRow(pixels, w, h, n, p, j, m) == PassRow(pixels, w, h, n, p, j, next)
  {
  }

  lemma LastOfRow(pixels: seq<byte>, w: nat, h: nat, n: nat, p: nat, j: nat, i: nat, k: nat, at: nat, row: seq<byte>,
                  x: nat, y: nat)
    requires |pixels| == Size(w, h, n) && 0 < n && p < 7 && i + 1 <= PassWidth(w, p) && j < PassHeight(h, p) && k < n
    requires at == Span(n, i) + k && row == PassRow(pixels, w, h, n, p, j, i + 1)
    requires x == Col(p, i) < w && y == Row(p, j) < h
    ensures at < |row| && row[at] == PixelAt(pixels, w, h, n, x, y)[k]
  {
  }

  lemma {:induction false} PassRowsAt(pixels: seq<byte>, w: nat, h: nat, n: nat, p: nat, m: nat, j: nat, t: nat,
                                      at: nat, rows: seq<byte>, row: seq<byte>)
    requires |pixels| == Size(w, h, n) && 0 < n && p < 7 && j < m <= PassHeight(h, p)
    requires t < Span(n, PassWidth(w, p)) && at == Span(Span(n, PassWidth(w, p)), j) + t
    requires rows == PassRows(pixels, w, h, n, p, m) && row == PassRow(pixels, w, h, n, p, j, PassWidth(w, p))
    ensures at < |rows| && rows[at] == row[t]
  {
    if j < m - 1 {
      var before := PassRows(pixels, w, h, n, p, m - 1);
      PassRowsAt(pixels, w, h, n, p, m - 1, j, t, at, before, row);
      RowsGoOn(pixels, w, h, n, p, m, at, before, rows);
    } else {
      SameRows(pixels, w, h, n, p, m, j + 1);
      LastOfRows(pixels, w, h, n, p, j, t, at, rows, row);
    }
  }

  lemma RowsGoOn(pixels: seq<byte>, w: nat, h: nat, n: nat, p: nat, m: nat, at: nat, before: seq<byte>,
                 rows: seq<byte>)
    requires |pixels| == Size(w, h, n) && 0 < n && p < 7 && 0 < m <= PassHeight(h, p) && at < |before|
    requires before == PassRows(pixels, w, h, n, p, m - 1) && rows == PassRows(pixels, w, h, n, p, m)
    ensures at < |rows| && rows[at] == before[at]
  {
  }

  lemma SameRows(pixels: seq<byte>, w: nat, h: nat, n: nat, p: nat, m: nat, next: nat)
    requires |pixels| == Size(w, h, n) && 0 < n && p < 7
    requires m <= PassHeight(h, p) && next <= PassHeight(h, p) && m == next
    ensures PassRows(pixels, w, h, n, p, m) == PassRows(pixels, w, h, n, p, next)
  {
  }

  lemma LastOfRows(pixels: seq<byte>, w: nat, h: nat, n: nat, p: nat, j: nat, t: nat, at: nat, rows: seq<byte>,
                   row: seq<byte>)
    requires |pixels| == Size(w, h, n) && 0 < n && p < 7 && j + 1 <= PassHeight(h, p)
    requires t < Span(n, PassWidth(w, p)) && at == Span(Span(n, PassWidth(w, p)), j) + t
    requires rows == PassRows(pixels, w, h, n, p, j + 1) && row == PassRow(pixels, w, h, n, p, j, PassWidth(w, p))
    ensures at < |rows| && rows[at] == row[t]
  {
  }

  lemma PlaceIsSum(w: nat, n: nat, x: nat, y: nat, k: nat)
    ensures Place(w, n, x, y, k) == Span(Span(n, w), y) + (Span(n, x) + k)
  {
    var cell := Span(w, y) + x;
    SpanAdd(n, Span(w, y), x);
    SpanSpan(n, w, y);
    assert Place(w, n, x, y, k) == Span(n, cell) + k;
  }

  /** Component k of pixel (i, j) of pass p comes from its place in the image. */
  lemma PassPixelsAt(pixels: seq<byte>, w: nat, h: nat, n: nat, p: nat, i: nat, j: nat, k: nat)
    requires |pixels| == Size(w, h, n) && 0 < n && p < 7 && i < PassWidth(w, p) && j < PassHeight(h, p) && k < n
    ensures Place(PassWidth(w, p), n, i, j, k) < PassSize(w, h, n, p)
    ensures Place(w, n, Col(p, i), Row(p, j), k) < |pixels|
    ensures PassPixels(pixels, w, h, n, p)[Place(PassWidth(w, p), n, i, j, k)]
         == pixels[Place(w, n, Col(p, i), Row(p, j), k)]
  {
    var row := PassRow(pixels, w, h, n, p, j, PassWidth(w, p));
    PassInBounds(w, h, p, i, j);
    PassRowAt(pixels, w, h, n, p, j, PassWidth(w, p), i, k, Span(n, i) + k, row, Col(p, i), Row(p, j));
    PixelByte(pixels, w, h, n, Col(p, i), Row(p, j), k);
    PlaceIsSum(PassWidth(w, p), n, i, j, k);
    PassRowsAt(pixels, w, h, n, p, PassHeight(h, p), j, Span(n, i) + k, Place(PassWidth(w, p), n, i, j, k),
               PassPixels(pixels, w, h, n, p), row);
    PlaceInBounds(PassWidth(w, p), PassHeight(h, p), n, i, j, k);
  }

  // ----- The passes with or without alpha -----

  function SpreadPass(pixels: seq<byte>, w: nat, h: nat, n: nat, outn: nat, p: nat): (pass: seq<byte>)
    requires |pixels| == Size(w, h, n) && 0 < n && (outn == n || outn == n + 1) && p < 7
    ensures |pass| == PassSize(w, h, outn, p)
  {
    Spread(PassPixels(pixels, w, h, n, p), n, outn, Span(PassWidth(w, p), PassHeight(h, p)))
  }

  function SpreadPasses(pixels: seq<byte>, w: nat, h: nat, n: nat, outn: nat, m: nat): (passes: seq<seq<byte>>)
    requires |pixels| == Size(w, h, n) && 0 < n && (outn == n || outn == n + 1) && m <= 7
    ensures ArePasses(passes, w, h, outn, m)
  {
    seq(m, p requires 0 <= p < m => SpreadPass(pixels, w, h, n, outn, p))
  }

  lemma OneMorePass(pixels: seq<byte>, w: nat, h: nat, n: nat, outn: nat, m: nat)
    requires |pixels| == Size(w, h, n) && 0 < n && (outn == n || outn == n + 1) && 0 < m <= 7
    ensures SpreadPasses(pixels, w, h, n, outn, m)
         == SpreadPasses(pixels, w, h, n, outn, m - 1) + [SpreadPass(pixels, w, h, n, outn, m - 1)]
  {
  }

  /** Component k of pixel number cell, once an alpha byte has been put after every pixel. */
  lemma SpreadByte(row: seq<byte>, n: nat, outn: nat, cells: nat, cell: nat, k: nat)
    requires |row| == Span(n, cells) && cell < cells && (outn == n || outn == n + 1) && k < outn
    ensures Span(outn, cell) + k < Span(outn, cells) && (k < n ==> Span(n, cell) + k < |row|)
    ensures Spread(row, n, outn, cells)[Span(outn, cell) + k] == if k < n then row[Span(n, cell) + k] else 255
  {
    if k < n {
      SpreadAt(row, n, outn, cells, cell, k);
    } else {
      SpreadAlpha(row, n, cells, cell);
    }
  }

  lemma CellInside(w: nat, h: nat, x: nat, y: nat)
    requires x < w && y < h
    ensures Span(w, y) + x < Span(w, h)
  {
    SpanMonotone(w, y, h);
  }

  lemma SpreadAtPlace(row: seq<byte>, w: nat, h: nat, n: nat, outn: nat, x: nat, y: nat, k: nat)
    requires |row| == Size(w, h, n) && x < w && y < h && (outn == n || outn == n + 1) && k < outn
    ensures Place(w, outn, x, y, k) < Size(w, h, outn) && (k < n ==> Place(w, n, x, y, k) < |row|)
    ensures Spread(row, n, outn, Span(w, h))[Place(w, outn, x, y, k)]
         == if k < n then row[Place(w, n, x, y, k)] else 255
  {
    var cell := Span(w, y) + x;
    CellInside(w, h, x, y);
    PlaceIs(w, n, x, y, k, cell);
    PlaceIs(w, outn, x, y, k, cell);
    SpreadByte(row, n, outn, Span(w, h), cell, k);
  }

  lemma PlaceIs(w: nat, n: nat, x: nat, y: nat, k: nat, cell: nat)
    requires cell == Span(w, y) + x
    ensures Place(w, n, x, y, k) == Span(n, cell) + k
  {
  }

  /** The place of a pixel in its pass. */
  lemma InPass(w: nat, h: nat, p: nat, x: nat, y: nat) returns (i: nat, j: nat)
    requires x < w && y < h && p == PassOf(x, y)
    ensures i < PassWidth(w, p) && j < PassHeight(h, p) && Col(p, i) == x && Row(p, j) == y
    ensures i == (x - XOrig(p)) / XSpc(p) && j == (y - YOrig(p)) / YSpc(p)
  {
    Residues(x, y);
    i := Line(w, XOrig(p), XSpc(p), x);
    j := Line(h, YOrig(p), YSpc(p), y);
  }

  lemma Line(size: nat, orig: nat, spc: nat, x: nat) returns (i: nat)
    requires orig < spc && spc in {1, 2, 4, 8} && x < size && x % spc == orig
    ensures i == (x - orig) / spc && i < Taken(size, orig, spc) && i * spc + orig == x
  {
    Column(size, orig, spc, x);
    i := (x - orig) / spc;
  }

  lemma PassByteIs(w: nat, h: nat, size: nat, pass: seq<byte>, p: nat, i: nat, j: nat, x: nat, y: nat, k: nat)
    requires x < w && y < h && k < size && p == PassOf(x, y) && |pass| == PassSize(w, h, size, p)
    requires i == (x - XOrig(p)) / XSpc(p) && j == (y - YOrig(p)) / YSpc(p)
    requires Place(PassWidth(w, p), size, i, j, k) < |pass|
    ensures PassByte(w, h, size, pass, x, y, k) == pass[Place(PassWidth(w, p), size, i, j, k)]
  {
  }

  /** The spread passes are the passes of the spread image. */
  lemma SpreadTaken(pixels: seq<byte>, w: nat, h: nat, n: nat, outn: nat)
    requires |pixels| == Size(w, h, n) && 0 < n && (outn == n || outn == n + 1)
    ensures TakenFrom(Spread(pixels, n, outn, Span(w, h)), SpreadPasses(pixels, w, h, n, outn, 7), w, h, outn)
  {
    var image, passes := Spread(pixels, n, outn, Span(w, h)), SpreadPasses(pixels, w, h, n, outn, 7);
    forall x: nat, y: nat, k: nat | Inside(image, w, h, outn, x, y, k)
      ensures image[Place(w, outn, x, y, k)] == PassByte(w, h, outn, passes[PassOf(x, y)], x, y, k)
    {
      var p := PassOf(x, y);
      var i, j := InPass(w, h, p, x, y);
      SpreadFromPass(pixels, w, h, n, outn, p, i, j, x, y, k);
      PassByteIs(w, h, outn, passes[p], p, i, j, x, y, k);
    }
  }

  lemma SpreadFromPass(pixels: seq<byte>, w: nat, h: nat, n: nat, outn: nat, p: nat, i: nat, j: nat, x: nat, y: nat,
                       k: nat)
    requires |pixels| == Size(w, h, n) && 0 < n && (outn == n || outn == n + 1) && x < w && y < h && k < outn
    requires p < 7 && i < PassWidth(w, p) && j < PassHeight(h, p) && x == Col(p, i) && y == Row(p, j)
    ensures Place(w, outn, x, y, k) < Size(w, h, outn)
    ensures Place(PassWidth(w, p), outn, i, j, k) < PassSize(w, h, outn, p)
    ensures Spread(pixels, n, outn, Span(w, h))[Place(w, outn, x, y, k)]
         == SpreadPass(pixels, w, h, n, outn, p)[Place(PassWidth(w, p), outn, i, j, k)]
  {
    SpreadAtPlace(pixels, w, h, n, outn, x, y, k);
    SpreadAtPlace(PassPixels(pixels, w, h, n, p), PassWidth(w, p), PassHeight(h, p), n, outn, i, j, k);
    if k < n {
      PassPixelsAt(pixels, w, h, n, p, i, j, k);
    }
  }

  // ----- The data of an interlaced image -----

  /** A filter for every row of every pass. */
  predicate AreChoices(choices: seq<seq<nat>>, h: nat) {
    |choices| == 7
    && forall p :: 0 <= p < 7 ==> |choices[p]| == PassHeight(h, p) && PngRows.AreFilters(choices[p])
  }

  function PassImage(pixels: seq<byte>, w: nat, h: nat, n: nat, p: nat): (image: PngFilter.Image)
    requires |pixels| == Size(w, h, n) && 0 < n && p < 7
    ensures image.Valid() && image.w == Span(n, PassWidth(w, p)) && image.height == PassHeight(h, p)
  {
    PngRowsRoundTrip.Packed(PassPixels(pixels, w, h, n, p), Span(n, PassWidth(w, p)), PassHeight(h, p))
  }

  /** The filtered rows of pass p; a pass without pixels has none. */
  function PassData(pixels: seq<byte>, w: nat, h: nat, n: nat, choices: seq<seq<nat>>, p: nat): seq<byte>
    requires |pixels| == Size(w, h, n) && 0 < n && p < 7 && AreChoices(choices, h)
  {
    if PassWidth(w, p) == 0 || PassHeight(h, p) == 0 then []
    else PngRows.Encoded(PassImage(pixels, w, h, n, p), choices[p], n)
  }

  /** The passes from p on, one after the other. */
  function DataFrom(pixels: seq<byte>, w: nat, h: nat, n: nat, choices: seq<seq<nat>>, p: nat): seq<byte>
    requires |pixels| == Size(w, h, n) && 0 < n && p <= 7 && AreChoices(choices, h)
    decreases 7 - p
  {
    if p == 7 then [] else PassData(pixels, w, h, n, choices, p) + DataFrom(pixels, w, h, n, choices, p + 1)
  }

  // ----- And back -----

  lemma TakenAtMost(size: nat, orig: nat, spc: nat)
    requires orig < spc && spc in {1, 2, 4, 8}
    ensures Taken(size, orig, spc) <= size
  {
  }

  /** A pass is no larger than the image. */
  lemma PassAtMost(w: nat, h: nat, p: nat)
    requires p < 7
    ensures PassWidth(w, p) <= w && PassHeight(h, p) <= h && Span(PassWidth(w, p), PassHeight(h, p)) <= Span(w, h)
  {
    TakenAtMost(w, XOrig(p), XSpc(p));
    TakenAtMost(h, YOrig(p), YSpc(p));
    SpanWider(PassWidth(w, p), w, PassHeight(h, p));
    SpanMonotone(w, PassHeight(h, p), h);
  }

  lemma {:induction false} SpanWider(a: nat, b: nat, k: nat)
    requires a <= b
    ensures Span(a, k) <= Span(b, k)
  {
    if k > 0 {
      SpanWider(a, b, k - 1);
    }
  }

  /** Whenever the image fits, its passes do. */
  lemma PassFits(n: nat, x: nat, y: nat, outn: nat, p: nat)
    requires 1 <= n <= 4 && 0 < x && WithinLimits(x, y, n) && (outn == n || (outn == n + 1 && outn != 3)) && p < 7
    requires !(n == 1 && outn == 2 && Span(x, y) == MAX_SIZE) && 0 < PassWidth(x, p) && 0 < PassHeight(y, p)
    ensures Allocates(n, PassWidth(x, p), 8, 7) && Allocates(PassWidth(x, p), PassHeight(y, p), outn, 0)
  {
    var pw, ph := PassWidth(x, p), PassHeight(y, p);
    PassAtMost(x, y, p);
    SpanSpan(n, x, y);
    SpanSpan(n, pw, ph);
    SpanMonotone(n, Span(pw, ph), Span(x, y));
    SmallerFits(n, Span(x, y), Span(pw, ph), outn);
    RowFits(n, pw, ph, outn);
  }

  lemma SmallerFits(n: nat, all: nat, part: nat, outn: nat)
    requires part <= all && Span(n, all) <= MAX_SIZE && 1 <= n && !(n == 1 && outn == 2 && all == MAX_SIZE)
    ensures !(n == 1 && outn == 2 && part == MAX_SIZE)
  {
    SpanIsProduct(n, all);
  }

  lemma PassImageHolds(pixels: seq<byte>, w: nat, h: nat, n: nat, p: nat)
    requires |pixels| == Size(w, h, n) && 0 < n && p < 7
    ensures PngRowsRoundTrip.Flat(PngRowsRoundTrip.Rows(PassImage(pixels, w, h, n, p), PassHeight(h, p)))
         == PassPixels(pixels, w, h, n, p)
  {
    var pass := PassPixels(pixels, w, h, n, p);
    PngRowsRoundTrip.PackedRows(pass, Span(n, PassWidth(w, p)), PassHeight(h, p), PassHeight(h, p));
    assert pass[..|pass|] == pass;
  }

  /** One pass is decoded to its pixels, whatever follows it. */
  lemma PassDecodes(pixels: seq<byte>, w: nat, h: nat, n: nat, outn: nat, choices: seq<seq<nat>>, p: nat,
                    more: seq<byte>)
    requires |pixels| == Size(w, h, n) && 0 < n && (outn == n || outn == n + 1) && p < 7 && AreChoices(choices, h)
    requires 0 < PassWidth(w, p) && 0 < PassHeight(h, p)
    requires Allocates(n, PassWidth(w, p), 8, 7) && Allocates(PassWidth(w, p), PassHeight(h, p), outn, 0)
    ensures var data := PassData(pixels, w, h, n, choices, p);
            && |data| == PngRows.Size(Span(n, PassWidth(w, p)), PassHeight(h, p))
            && RawImage(data + more, PassWidth(w, p), PassHeight(h, p), n, outn)
               == Good(SpreadPass(pixels, w, h, n, outn, p))
  {
    var pw, ph := PassWidth(w, p), PassHeight(h, p);
    var image := PassImage(pixels, w, h, n, p);
    var data := PassData(pixels, w, h, n, choices, p);
    PngRowsRoundTrip.EncodedAll(image, choices[p], n, data);
    PngRowsRoundTrip.EncodedBefore(image, choices[p], n, data, more);
    PngRowsRoundTrip.EncodedRoundTrip(image, choices[p], pw, n, outn, data + more);
    PassImageHolds(pixels, w, h, n, p);
  }

  lemma NextPassReads(pixels: seq<byte>, x: nat, y: nat, n: nat, outn: nat, choices: seq<seq<nat>>, p: nat)
    requires |pixels| == Size(x, y, n) && AreChoices(choices, y) && p < 7
    requires 1 <= n <= 4 && 0 < x && WithinLimits(x, y, n) && (outn == n || (outn == n + 1 && outn != 3))
    requires !(n == 1 && outn == 2 && Span(x, y) == MAX_SIZE)
    ensures NextPass(Passed(SpreadPasses(pixels, x, y, n, outn, p), DataFrom(pixels, x, y, n, choices, p)),
                     x, y, n, outn, p)
         == Passed(SpreadPasses(pixels, x, y, n, outn, p) + [SpreadPass(pixels, x, y, n, outn, p)],
                   DataFrom(pixels, x, y, n, choices, p + 1))
  {
    var data, more := PassData(pixels, x, y, n, choices, p), DataFrom(pixels, x, y, n, choices, p + 1);
    if PassWidth(x, p) == 0 || PassHeight(y, p) == 0 {
      NoPixels(pixels, x, y, n, outn, p);
      assert data + more == more;
    } else {
      PassFits(n, x, y, outn, p);
      PassDecodes(pixels, x, y, n, outn, choices, p, more);
      assert (data + more)[|data|..] == more;
    }
  }

  lemma NoPixels(pixels: seq<byte>, w: nat, h: nat, n: nat, outn: nat, p: nat)
    requires |pixels| == Size(w, h, n) && 0 < n && (outn == n || outn == n + 1) && p < 7
    requires PassWidth(w, p) == 0 || PassHeight(h, p) == 0
    ensures SpreadPass(pixels, w, h, n, outn, p) == []
  {
    NoCells(PassWidth(w, p), PassHeight(h, p));
    NoCells(outn, Span(PassWidth(w, p), PassHeight(h, p)));
  }

  lemma {:induction false} NoCells(a: nat, b: nat)
    requires a == 0 || b == 0
    ensures Span(a, b) == 0
    decreases b
  {
    if b > 0 {
      NoCells(a, b - 1);
    }
  }

  /** Reading the passes one after the other gives them all. */
  lemma {:induction false} PassesRead(pixels: seq<byte>, x: nat, y: nat, n: nat, outn: nat, choices: seq<seq<nat>>,
                                      m: nat)
    requires |pixels| == Size(x, y, n) && AreChoices(choices, y) && m <= 7
    requires 1 <= n <= 4 && 0 < x && WithinLimits(x, y, n) && (outn == n || (outn == n + 1 && outn != 3))
    requires !(n == 1 && outn == 2 && Span(x, y) == MAX_SIZE)
    ensures ReadPasses(DataFrom(pixels, x, y, n, choices, 0), x, y, n, outn, m)
         == Passed(SpreadPasses(pixels, x, y, n, outn, m), DataFrom(pixels, x, y, n, choices, m))
  {
    if m > 0 {
      PassesRead(pixels, x, y, n, outn, choices, m - 1);
      NextPassReads(pixels, x, y, n, outn, choices, m - 1);
      OneMorePass(pixels, x, y, n, outn, m);
    }
  }

  /** The passes of any image within the limits, filtered in any way, are decoded to the image, plain or with 255 after
  every pixel, but for the one size whose output would be too large by one byte. */
  lemma DecodesInterlaced(pixels: seq<byte>, x: nat, y: nat, n: nat, outn: nat, choices: seq<seq<nat>>,
                          idata: seq<byte>, result: Loaded)
    requires |pixels| == Size(x, y, n) && AreChoices(choices, y)
    requires 1 <= n <= 4 && 0 < x && WithinLimits(x, y, n) && (outn == n || (outn == n + 1 && outn != 3))
    requires Decodes(DataFrom(pixels, x, y, n, choices, 0), State(false, x, y, n, true, idata), outn, result)
    ensures result == if n == 1 && outn == 2 && Span(x, y) == MAX_SIZE then Failed(Unmodelled)
                      else Image(x, y, n, outn, Spread(pixels, n, outn, Span(x, y)))
  {
    RowFits(n, x, y, outn);
    if !(n == 1 && outn == 2 && Span(x, y) == MAX_SIZE) {
      PassesRead(pixels, x, y, n, outn, choices, 7);
      SpreadTaken(pixels, x, y, n, outn);
      InterlaceRoundTrip(Spread(pixels, n, outn, Span(x, y)), result.pixels, SpreadPasses(pixels, x, y, n, outn, 7),
                         x, y, outn);
    }
  }

  /** The same for a whole image, in any zlib stream that inflates to those rows. */
  lemma InterlacedRoundTrip(pixels: seq<byte>, x: nat, y: nat, n: nat, choices: seq<seq<nat>>, idata: seq<byte>,
                            reqComp: int, result: Loaded)
    requires |pixels| == Size(x, y, n) && AreChoices(choices, y) && 1 <= n <= 4 && 0 < x && WithinLimits(x, y, n)
    requires idata != [] && BlockFormat.Zlib(idata).Done?
    requires BlockFormat.Zlib(idata).out == DataFrom(pixels, x, y, n, choices, 0)
    requires Finishes(State(false, x, y, n, true, idata), reqComp, result)
    ensures var outn := OutComponents(n, reqComp);
            result == if n == 1 && reqComp == 2 && Span(x, y) == MAX_SIZE then Failed(Unmodelled)
                      else Image(x, y, n, outn, Spread(pixels, n, outn, Span(x, y)))
  {
    DecodesInterlaced(pixels, x, y, n, OutComponents(n, reqComp), choices, idata, result);
  }
}
