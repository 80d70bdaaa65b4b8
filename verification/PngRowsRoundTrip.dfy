/** Reconstruction gives back the rows that were filtered, whatever filters were chosen; the output with
alpha bytes is the plain output with 255 put in after every pixel. */
module PngRowsRoundTrip {
  import opened Sequences
  import opened Bits
  import opened Spans
  import opened PngFilter
  import opened PngRows
  import opened PngPixels

  function Rows(image: Image, k: nat): (rows: seq<seq<byte>>)
    requires image.Valid() && k <= image.height
    ensures |rows| == k && AllWide(rows, image.w)
  {
    if k == 0 then [] else Rows(image, k - 1) + [image.Row(k - 1)]
  }

  /** Rows in order, one after the other. */
  function Flat(rows: seq<seq<byte>>): seq<byte> {
    if rows == [] then [] else Flat(rows[..|rows| - 1]) + rows[|rows| - 1]
  }

  lemma {:induction false} FramedPrefix(fts: seq<nat>, lines: seq<seq<byte>>, w: nat, k: nat)
    requires |fts| == |lines| && AreFilters(fts) && AllWide(lines, w) && k <= |fts|
    ensures Size(w, k) <= Size(w, |fts|)
    ensures Framed(fts, lines, w)[..Size(w, k)] == Framed(fts[..k], lines[..k], w)
  {
    SpanMonotone(w + 1, k, |fts|);
    if k < |fts| {
      var m := |fts| - 1;
      FramedPrefix(fts[..m], lines[..m], w, k);
      assert fts[..m][..k] == fts[..k] && lines[..m][..k] == lines[..k];
    } else {
      assert fts[..k] == fts && lines[..k] == lines;
    }
  }

  lemma Parts(raw: seq<byte>, a: seq<byte>, ft: byte, line: seq<byte>, at: nat, end: nat, w: nat)
    requires at == |a| && w == |line| && end == at + 1 + w <= |raw| && raw[..end] == a + [ft] + line
    ensures raw[at] == ft && raw[at + 1..at + 1 + w] == line
  {
    assert raw[at] == raw[..end][at];
    assert raw[at + 1..at + 1 + w] == raw[..end][at + 1..];
  }

  /** Where line k ended up. */
  lemma FramedAt(fts: seq<nat>, lines: seq<seq<byte>>, w: nat, raw: seq<byte>, k: nat)
    requires |fts| == |lines| && AreFilters(fts) && AllWide(lines, w) && k < |fts|
    requires raw == Framed(fts, lines, w)
    ensures Size(w, k + 1) <= |raw|
    ensures raw[Size(w, k)] == fts[k] && LineAt(raw, w, k) == lines[k]
  {
    FramedPrefix(fts, lines, w, k + 1);
    FramedLast(fts, lines, w, k);
    LineParts(raw, Framed(fts[..k], lines[..k], w), fts[k], lines[k], w, k);
  }

  lemma LineParts(raw: seq<byte>, a: seq<byte>, ft: byte, line: seq<byte>, w: nat, k: nat)
    requires |a| == Size(w, k) && |line| == w && Size(w, k + 1) <= |raw| && raw[..Size(w, k + 1)] == a + [ft] + line
    ensures raw[Size(w, k)] == ft && LineAt(raw, w, k) == line
  {
    Parts(raw, a, ft, line, Size(w, k), Size(w, k + 1), w);
  }

  lemma FramedLast(fts: seq<nat>, lines: seq<seq<byte>>, w: nat, k: nat)
    requires |fts| == |lines| && AreFilters(fts) && AllWide(lines, w) && k < |fts|
    ensures Framed(fts[..k + 1], lines[..k + 1], w) == Framed(fts[..k], lines[..k], w) + [fts[k]] + lines[k]
  {
    var front, last := fts[..k + 1], lines[..k + 1];
    assert front[..k] == fts[..k] && last[..k] == lines[..k];
  }

  lemma {:induction false} LinesAt(image: Image, fts: seq<nat>, n: nat, k: nat, ft: nat, line: seq<byte>)
    requires image.Valid() && 0 < n && k < |fts| <= image.height && ft == fts[k] && line == LineOf(image, k, n, ft)
    ensures Lines(image, fts, n)[k] == line
  {
    LinesLast(image, fts, n);
    if k < |fts| - 1 {
      LinesAt(image, fts[..|fts| - 1], n, k, ft, line);
    }
  }

  lemma LinesLast(image: Image, fts: seq<nat>, n: nat)
    requires image.Valid() && 0 < n && 0 < |fts| <= image.height
    ensures var m := |fts| - 1;
            && Lines(image, fts, n)[m] == LineOf(image, m, n, fts[m])
            && forall k :: 0 <= k < m ==> Lines(image, fts, n)[k] == Lines(image, fts[..m], n)[k]
  {
  }

  /** Line k of the data is row k of the image, behind the number of its filter. */
  predicate IsEncoded(image: Image, n: nat, raw: seq<byte>, k: nat, ft: nat)
    requires image.Valid() && 0 < n && k < image.height
  {
    && Size(image.w, k) < Size(image.w, k + 1) <= |raw|
    && raw[Size(image.w, k)] == ft && LineAt(raw, image.w, k) == LineOf(image, k, n, ft)
  }

  lemma EncodedAt(image: Image, fts: seq<nat>, n: nat, raw: seq<byte>, k: nat)
    requires image.Valid() && 0 < n && k < |fts| <= image.height && AreFilters(fts)
    requires raw == Encoded(image, fts, n)
    ensures IsEncoded(image, n, raw, k, fts[k])
  {
    FramedAt(fts, Lines(image, fts, n), image.w, raw, k);
    LinesAt(image, fts, n, k, fts[k], LineOf(image, k, n, fts[k]));
  }

  predicate AllEncoded(image: Image, fts: seq<nat>, n: nat, raw: seq<byte>)
    requires image.Valid() && 0 < n
  {
    |fts| <= image.height && AreFilters(fts) && forall k :: 0 <= k < |fts| ==> IsEncoded(image, n, raw, k, fts[k])
  }

  lemma EncodedAll(image: Image, fts: seq<nat>, n: nat, raw: seq<byte>)
    requires image.Valid() && 0 < n && |fts| <= image.height && AreFilters(fts) && raw == Encoded(image, fts, n)
    ensures AllEncoded(image, fts, n, raw)
  {
    forall k | 0 <= k < |fts| ensures IsEncoded(image, n, raw, k, fts[k]) {
      EncodedAt(image, fts, n, raw, k);
    }
  }

  predicate IsRebuilt(image: Image, n: nat, raw: seq<byte>, k: nat)
    requires image.Valid() && 0 < n && k < image.height
  {
    Size(image.w, k + 1) <= |raw| && PlainRow(raw, image.w, n, k) == image.Row(k)
  }

  lemma {:induction false} RowRoundTrip(image: Image, fts: seq<nat>, n: nat, raw: seq<byte>, k: nat)
    requires image.Valid() && 0 < n && AllEncoded(image, fts, n, raw) && k < |fts|
    ensures IsRebuilt(image, n, raw, k)
  {
    if k > 0 {
      RowRoundTrip(image, fts, n, raw, k - 1);
    }
    RowRebuilt(image, n, raw, k, fts[k]);
  }

  /** A row is rebuilt when the one above it was. */
  lemma RowRebuilt(image: Image, n: nat, raw: seq<byte>, k: nat, ft: nat)
    requires image.Valid() && 0 < n && k < image.height && IsEncoded(image, n, raw, k, ft)
    requires k > 0 ==> IsRebuilt(image, n, raw, k - 1)
    ensures IsRebuilt(image, n, raw, k)
  {
    LineUnfilters(ft, image.Row(k), image.Above(k), n);
  }

  lemma {:induction false} FiltersAreGood(image: Image, fts: seq<nat>, n: nat, raw: seq<byte>, k: nat)
    requires image.Valid() && 0 < n && AllEncoded(image, fts, n, raw) && k <= |fts|
    ensures Size(image.w, k) <= |raw| && GoodFilters(raw, image.w, k)
  {
    if k > 0 {
      assert IsEncoded(image, n, raw, k - 1, fts[k - 1]);
      FiltersAreGood(image, fts, n, raw, k - 1);
    }
  }

  /** Every row comes back, whatever its filter. */
  lemma {:induction false} RowsRoundTrip(image: Image, fts: seq<nat>, n: nat, raw: seq<byte>, k: nat)
    requires image.Valid() && 0 < n && AllEncoded(image, fts, n, raw) && k <= |fts|
    ensures Size(image.w, k) <= |raw| && PlainRows(raw, image.w, n, k) == Rows(image, k)
  {
    if k > 0 {
      RowsRoundTrip(image, fts, n, raw, k - 1);
      RowRoundTrip(image, fts, n, raw, k - 1);
    }
  }

  // ----- Alpha -----

  /** Pixel k - 1, between lo and hi, and what comes after it. */
  lemma SpreadNext(row: seq<byte>, pixel: seq<byte>, n: nat, outn: nat, k: nat, lo: nat, hi: nat, alpha: seq<byte>)
    requires 0 < k && hi <= |row| && (outn == n || outn == n + 1) && lo == Span(n, k - 1) && hi == Span(n, k)
    requires pixel == row[lo..hi] && alpha == if outn == n then [] else [255]
    ensures Spread(row, n, outn, k) == Spread(row, n, outn, k - 1) + (pixel + alpha)
  {
    Associates(Spread(row, n, outn, k - 1), pixel, alpha);
  }

  lemma {:induction false} SpreadAppend(a: seq<byte>, b: seq<byte>, n: nat, outn: nat, i: nat, j: nat, m: nat)
    requires |a| == Span(n, i) && Span(n, j) <= |b| && (outn == n || outn == n + 1) && m == i + j
    ensures Span(n, m) == Span(n, i) + Span(n, j)
    ensures Spread(a + b, n, outn, m) == Spread(a, n, outn, i) + Spread(b, n, outn, j)
    decreases j
  {
    SpanAdd(n, i, j);
    if j > 0 {
      SpreadAppend(a, b, n, outn, i, j - 1, m - 1);
      SpreadAppendPixel(a, b, n, outn, m, j, Spread(a, n, outn, i), Spread(b, n, outn, j - 1));
    } else {
      SpreadPrefix(a, b, n, outn, i);
      assert m == i && Spread(b, n, outn, 0) == [];
    }
  }

  /** Pixel k of a + b is pixel j of b. */
  lemma SpreadAppendPixel(a: seq<byte>, b: seq<byte>, n: nat, outn: nat, k: nat, j: nat, sa: seq<byte>, sb: seq<byte>)
    requires 0 < j <= k && Span(n, j) <= |b| && (outn == n || outn == n + 1)
    requires Span(n, k) == |a| + Span(n, j) && Span(n, k - 1) == |a| + Span(n, j - 1)
    requires Spread(a + b, n, outn, k - 1) == sa + sb && Spread(b, n, outn, j - 1) == sb
    ensures Spread(a + b, n, outn, k) == sa + Spread(b, n, outn, j)
  {
    var lo, hi := Span(n, j - 1), Span(n, j);
    var pixel := b[lo..hi];
    SliceOfRest(a, b, lo, hi);
    var alpha := if outn == n then [] else [255];
    SpreadNext(b, pixel, n, outn, j, lo, hi, alpha);
    SpreadNext(a + b, pixel, n, outn, k, |a| + lo, |a| + hi, alpha);
    Associates(sa, sb, pixel + alpha);
  }

  lemma SliceOfFront(a: seq<byte>, b: seq<byte>, lo: nat, hi: nat)
    requires lo <= hi <= |a|
    ensures (a + b)[lo..hi] == a[lo..hi]
  {
  }

  lemma SliceOfRest(a: seq<byte>, b: seq<byte>, lo: nat, hi: nat)
    requires lo <= hi <= |b|
    ensures (a + b)[|a| + lo..|a| + hi] == b[lo..hi]
  {
  }

  lemma {:induction false} SpreadPrefix(row: seq<byte>, rest: seq<byte>, n: nat, outn: nat, i: nat)
    requires Span(n, i) <= |row| && (outn == n || outn == n + 1)
    ensures Spread(row + rest, n, outn, i) == Spread(row, n, outn, i)
  {
    if i > 0 {
      SpreadPrefix(row, rest, n, outn, i - 1);
      var lo, hi := Span(n, i - 1), Span(n, i);
      var pixel := row[lo..hi];
      SliceOfFront(row, rest, lo, hi);
      var alpha := if outn == n then [] else [255];
      SpreadNext(row, pixel, n, outn, i, lo, hi, alpha);
      SpreadNext(row + rest, pixel, n, outn, i, lo, hi, alpha);
    }
  }

  lemma {:induction false} LaidPlain(rows: seq<seq<byte>>, x: nat, n: nat)
    requires AllWide(rows, Span(n, x))
    ensures Laid(rows, x, n, n) == Flat(rows)
  {
    if rows != [] {
      var k := |rows| - 1;
      LaidPlain(rows[..k], x, n);
      SpreadSame(rows[k], n, x);
      assert rows[k][..Span(n, x)] == rows[k];
    }
  }

  lemma {:induction false} FlatLength(rows: seq<seq<byte>>, w: nat)
    requires AllWide(rows, w)
    ensures |Flat(rows)| == Span(w, |rows|)
  {
    if rows != [] {
      FlatLength(rows[..|rows| - 1], w);
    }
  }

  /** Decoding with alpha is decoding without, then putting 255 after every pixel. */
  lemma {:induction false} LaidAlpha(rows: seq<seq<byte>>, x: nat, n: nat)
    requires AllWide(rows, Span(n, x))
    ensures |Flat(rows)| == Span(n, Span(x, |rows|))
    ensures Laid(rows, x, n, n + 1) == Spread(Flat(rows), n, n + 1, Span(x, |rows|))
  {
    FlatLength(rows, Span(n, x));
    SpanSpan(n, x, |rows|);
    if rows != [] {
      var k := |rows| - 1;
      LaidAlpha(rows[..k], x, n);
      SpreadAppend(Flat(rows[..k]), rows[k], n, n + 1, Span(x, k), x, Span(x, |rows|));
    }
  }

  /** Encoded rows may be followed by other data. */
  lemma EncodedBefore(image: Image, fts: seq<nat>, n: nat, raw: seq<byte>, more: seq<byte>)
    requires image.Valid() && 0 < n && AllEncoded(image, fts, n, raw)
    ensures AllEncoded(image, fts, n, raw + more)
  {
    forall k | 0 <= k < |fts| ensures IsEncoded(image, n, raw + more, k, fts[k]) {
      assert IsEncoded(image, n, raw, k, fts[k]);
      LineBefore(raw, more, image.w, k);
    }
  }

  lemma LineBefore(raw: seq<byte>, more: seq<byte>, w: nat, k: nat)
    requires Size(w, k + 1) <= |raw|
    ensures LineAt(raw + more, w, k) == LineAt(raw, w, k)
  {
  }

  /** The whole image comes back, plain or with opaque alpha. */
  lemma ImageRoundTrip(image: Image, fts: seq<nat>, x: nat, n: nat, outn: nat, raw: seq<byte>)
    requires image.Valid() && 0 < n && AreFilters(fts) && |fts| == image.height && image.w == Span(n, x)
    requires raw == Encoded(image, fts, n) && (outn == n || outn == n + 1)
    ensures Size(image.w, image.height) == |raw| && GoodFilters(raw, image.w, image.height)
    ensures var pixels := Flat(Rows(image, image.height));
            |pixels| == Span(n, Span(x, image.height))
            && Pixels(raw, x, n, outn, image.height) == Spread(pixels, n, outn, Span(x, image.height))
  {
    EncodedAll(image, fts, n, raw);
    EncodedRoundTrip(image, fts, x, n, outn, raw);
  }

  lemma EncodedRoundTrip(image: Image, fts: seq<nat>, x: nat, n: nat, outn: nat, raw: seq<byte>)
    requires image.Valid() && 0 < n && |fts| == image.height && image.w == Span(n, x)
    requires AllEncoded(image, fts, n, raw) && (outn == n || outn == n + 1)
    ensures Size(image.w, image.height) <= |raw| && GoodFilters(raw, image.w, image.height)
    ensures var pixels := Flat(Rows(image, image.height));
            |pixels| == Span(n, Span(x, image.height))
            && Pixels(raw, x, n, outn, image.height) == Spread(pixels, n, outn, Span(x, image.height))
  {
    var rows := Rows(image, image.height);
    FiltersAreGood(image, fts, n, raw, image.height);
    RowsRoundTrip(image, fts, n, raw, image.height);
    LaidAlpha(rows, x, n);
    LaidPlain(rows, x, n);
    SpreadSame(Flat(rows), n, Span(x, image.height));
  }

  /** The image of packed rows. */
  function Packed(pixels: seq<byte>, w: nat, height: nat): (image: Image)
    requires |pixels| == Span(w, height)
    ensures image.Valid() && image.w == w && image.height == height
  {
    PackedInside(pixels, w, height);
    Image(pixels, 0, w, w, height, false)
  }

  lemma PackedInside(pixels: seq<byte>, w: nat, height: nat)
    requires |pixels| == Span(w, height)
    ensures Image(pixels, 0, w, w, height, false).Valid()
  {
    var image := Image(pixels, 0, w, w, height, false);
    forall y | 0 <= y < height ensures image.Inside(y) {
      SpanIsProduct(w, y);
      SpanMonotone(w, y, height);
    }
  }

  lemma {:induction false} PackedRows(pixels: seq<byte>, w: nat, height: nat, k: nat)
    requires |pixels| == Span(w, height) && k <= height
    ensures Span(w, k) <= |pixels| && Flat(Rows(Packed(pixels, w, height), k)) == pixels[..Span(w, k)]
  {
    SpanMonotone(w, k, height);
    if k > 0 {
      PackedRows(pixels, w, height, k - 1);
      PackedRow(pixels, w, height, k - 1, Span(w, k - 1), Span(w, k));
    }
  }

  lemma PackedRow(pixels: seq<byte>, w: nat, height: nat, k: nat, from: nat, to: nat)
    requires |pixels| == Span(w, height) && k < height && from == Span(w, k) && to == from + w <= |pixels|
    ensures Packed(pixels, w, height).Row(k) == pixels[from..to] && pixels[..to] == pixels[..from] + pixels[from..to]
  {
    SpanIsProduct(w, k);
  }
}
