/** Whole run-length coded TGA images: the writer goes through the rows from the bottom up, or from the top
down when flipping; the reader turns the image over and puts red and blue back. */
module TgaImage {
  import opened Bits
  import opened Spans
  import opened ByteReader
  import opened Tga

  /** Where pixel i of row r lies in an image of width w. */
  function Cell(w: nat, r: nat, i: nat): nat {
    Span(w, r) + i
  }

  lemma CellInBounds(w: nat, h: nat, r: nat, i: nat)
    requires r < h && i < w
    ensures Cell(w, r, i) < Span(w, h)
  {
    SpanMonotone(w, r, h);
  }

  /** The row written after t others. */
  function Source(h: nat, flip: bool, t: nat): nat
    requires t < h
  {
    if flip then t else h - 1 - t
  }

  /** The pixels of the first t rows in the order of the file. */
  ghost predicate InFileOrder(pixels: seq<Pixel>, image: seq<Pixel>, w: nat, h: nat, flip: bool, t: nat) {
    t <= h && |image| == Span(w, h) && |pixels| == Span(w, t)
    && forall r: nat, i: nat :: r < t && i < w ==> SameSource(pixels, image, w, h, flip, r, i)
  }

  /** Pixel i of the r-th row in the file is that of its source row. */
  ghost predicate SameSource(pixels: seq<Pixel>, image: seq<Pixel>, w: nat, h: nat, flip: bool, r: nat, i: nat) {
    r < h && Cell(w, r, i) < |pixels| && Cell(w, Source(h, flip, r), i) < |image|
    && pixels[Cell(w, r, i)] == image[Cell(w, Source(h, flip, r), i)]
  }

  /** The file has the rows from the bottom up, or from the top down when flipping. */
  lemma FileRows(pixels: seq<Pixel>, image: seq<Pixel>, w: nat, h: nat, flip: bool, r: nat, i: nat)
    requires InFileOrder(pixels, image, w, h, flip, h) && r < h && i < w
    ensures var from := if flip then r else h - 1 - r;
            w * r + i < |pixels| && w * from + i < |image| && pixels[w * r + i] == image[w * from + i]
  {
    SpanIsProduct(w, r);
    SpanIsProduct(w, if flip then r else h - 1 - r);
    assert SameSource(pixels, image, w, h, flip, r, i);
  }

  // ----- The writer -----

  method RowOf(image: seq<Pixel>, w: nat, h: nat, j: nat, comp: nat) returns (row: seq<Pixel>)
    requires |image| == Span(w, h) && j < h && ArePixels(image, comp)
    ensures |row| == w && ArePixels(row, comp)
    ensures forall i :: 0 <= i < w ==> Cell(w, j, i) < |image| && row[i] == image[Cell(w, j, i)]
  {
    SpanIsProduct(w, j);
    row := [];
    for i := 0 to w
      invariant |row| == i && ArePixels(row, comp)
      invariant forall k :: 0 <= k < i ==> Cell(w, j, k) < |image| && row[k] == image[Cell(w, j, k)]
    {
      CellInBounds(w, h, j, i);
      row := row + [image[w * j + i]];
    }
  }

  method WriteImage(image: seq<Pixel>, w: nat, h: nat, comp: nat, flip: bool)
    returns (out: seq<byte>, ghost ps: seq<Packet>)
    requires |image| == Span(w, h) && ArePixels(image, comp)
    ensures ArePackets(ps, comp) && out == AllCoded(ps, comp)
    ensures InFileOrder(AllPlain(ps), image, w, h, flip, h)
  {
    out, ps := [], [];
    var j: int, jend: int, jdir: int := h - 1, -1, -1;
    if flip {
      j, jend, jdir := 0, h, 1;
    }
    ghost var t := 0;
    while j != jend
      invariant 0 <= t <= h && j == (if flip then t else h - 1 - t)
      invariant jend == (if flip then h else -1) && jdir == if flip then 1 else -1
      invariant ArePackets(ps, comp) && out == AllCoded(ps, comp)
      invariant InFileOrder(AllPlain(ps), image, w, h, flip, t)
      decreases h - t
    {
      out, ps := WriteNextRow(image, w, h, comp, flip, j, out, ps, t);
      j, t := j + jdir, t + 1;
    }
  }

  method WriteNextRow(image: seq<Pixel>, w: nat, h: nat, comp: nat, flip: bool, j: nat, before: seq<byte>,
                      ghost ps0: seq<Packet>, ghost t: nat)
    returns (out: seq<byte>, ghost ps: seq<Packet>)
    requires |image| == Span(w, h) && ArePixels(image, comp) && t < h && j == Source(h, flip, t)
    requires ArePackets(ps0, comp) && before == AllCoded(ps0, comp) && InFileOrder(AllPlain(ps0), image, w, h, flip, t)
    ensures ArePackets(ps, comp) && out == AllCoded(ps, comp) && InFileOrder(AllPlain(ps), image, w, h, flip, t + 1)
  {
    var row := RowOf(image, w, h, j, comp);
    OrderGrows(AllPlain(ps0), row, image, w, h, flip, t);
    out, ps := WriteRow(row, comp, before, ps0);
  }

  lemma RowSource(w: nat, h: nat, flip: bool, t: nat, r: nat, i: nat)
    requires t < h && r < t + 1 && i < w
    ensures Source(h, flip, r) < h && Cell(w, Source(h, flip, r), i) < Span(w, h)
    ensures if r < t then Cell(w, r, i) < Span(w, t) else Cell(w, r, i) == Span(w, t) + i
  {
    CellInBounds(w, h, Source(h, flip, r), i);
    if r < t {
      CellInBounds(w, t, r, i);
    }
  }

  lemma OrderGrows(pixels: seq<Pixel>, row: seq<Pixel>, image: seq<Pixel>, w: nat, h: nat, flip: bool, t: nat)
    requires t < h && InFileOrder(pixels, image, w, h, flip, t) && |row| == w
    requires var j := Source(h, flip, t);
             forall i :: 0 <= i < w ==> Cell(w, j, i) < |image| && row[i] == image[Cell(w, j, i)]
    ensures InFileOrder(pixels + row, image, w, h, flip, t + 1)
  {
    forall r: nat, i: nat | r < t + 1 && i < w ensures SameSource(pixels + row, image, w, h, flip, r, i) {
      RowSource(w, h, flip, t, r, i);
      if r < t {
        assert SameSource(pixels, image, w, h, flip, r, i);
      } else {
        assert row[i] == image[Cell(w, Source(h, flip, t), i)];
      }
    }
    assert Span(w, t + 1) == Span(w, t) + w;
  }

  // ----- The reader -----

  /** Rows above r have changed places with those as far from the bottom; the middle is as it was. */
  ghost predicate TurnedOver(before: seq<Pixel>, after: seq<Pixel>, w: nat, h: nat, r: nat) {
    |before| == |after| == Span(w, h)
    && forall k: nat, i: nat {:trigger Cell(w, k, i)} :: k < h && i < w ==>
         Cell(w, k, i) < |after| && Cell(w, h - 1 - k, i) < |before|
         && after[Cell(w, k, i)] == before[if k < r || k > h - 1 - r then Cell(w, h - 1 - k, i) else Cell(w, k, i)]
  }

  /** Turns the image over in place, swapping rows from the outside in. */
  method Invert(data: array<Pixel>, w: nat, h: nat)
    requires data.Length == Span(w, h)
    modifies data
    ensures TurnedOver(old(data[..]), data[..], w, h, (h + 1) / 2)
  {
    AllCells(data[..], w, h);
    var j := 0;
    while j * 2 < h
      invariant 0 <= j <= (h + 1) / 2
      invariant TurnedOver(old(data[..]), data[..], w, h, j)
    {
      ghost var before := data[..];
      SwapRows(data, w, h, j);
      TurnMore(old(data[..]), before, data[..], w, h, j);
      j := j + 1;
    }
  }

  lemma AllCells(data: seq<Pixel>, w: nat, h: nat)
    requires |data| == Span(w, h)
    ensures TurnedOver(data, data, w, h, 0)
  {
    forall k: nat, i: nat {:trigger Cell(w, k, i)} | k < h && i < w
      ensures Cell(w, k, i) < |data| && Cell(w, h - 1 - k, i) < |data|
    {
      CellInBounds(w, h, k, i);
      CellInBounds(w, h, h - 1 - k, i);
    }
  }

  /** n pixels from a on and n pixels from b on have changed places. */
  ghost predicate Exchanged(before: seq<Pixel>, after: seq<Pixel>, a: nat, b: nat, n: nat) {
    |before| == |after| && a + n <= |after| && b + n <= |after|
    && forall t :: 0 <= t < |after| ==>
         after[t] == before[if a <= t < a + n then t - a + b else if b <= t < b + n then t - b + a else t]
  }

  method SwapRows(data: array<Pixel>, w: nat, h: nat, j: nat)
    requires data.Length == Span(w, h) && j * 2 < h
    modifies data
    ensures Exchanged(old(data[..]), data[..], Span(w, j), Span(w, h - 1 - j), w)
  {
    RowsApart(w, h, j);
    Exchange(data, RowStart(w, j), RowStart(w, h - 1 - j), w);
  }

  lemma RowsApart(w: nat, h: nat, j: nat)
    requires j * 2 < h
    ensures Span(w, h - 1 - j) + w <= Span(w, h)
    ensures Span(w, j) + w <= Span(w, h - 1 - j) || j == h - 1 - j
  {
    SpanMonotone(w, h - 1 - j, h);
    if j < h - 1 - j {
      SpanMonotone(w, j, h - 1 - j);
    }
  }

  method Exchange(data: array<Pixel>, a: nat, b: nat, w: nat)
    requires b + w <= data.Length && (a + w <= b || a == b)
    modifies data
    ensures Exchanged(old(data[..]), data[..], a, b, w)
  {
    ghost var first, n := data[..], 0;
    var index1, index2 := a, b;
    var i: nat := w;
    while i > 0
      invariant n + i == w && index1 == a + n && index2 == b + n
      invariant Exchanged(first, data[..], a, b, n)
    {
      ghost var present := data[..];
      Swap(data, index1, index2);
      ExchangedMore(first, present, data[..], a, b, w, n);
      index1, index2, i, n := index1 + 1, index2 + 1, i - 1, n + 1;
    }
    assert n == w;
  }

  method Swap(data: array<Pixel>, p: nat, q: nat)
    requires p < data.Length && q < data.Length
    modifies data
    ensures data[..] == old(data[..])[p := old(data[q])][q := old(data[p])]
  {
    data[p], data[q] := data[q], data[p];
  }

  lemma ExchangedMore(first: seq<Pixel>, before: seq<Pixel>, after: seq<Pixel>, a: nat, b: nat, w: nat, i: nat)
    requires i < w && b + w <= |first| && (a + w <= b || a == b) && Exchanged(first, before, a, b, i)
    requires |after| == |before| && after == before[a + i := before[b + i]][b + i := before[a + i]]
    ensures Exchanged(first, after, a, b, i + 1)
  {
  }

  function RowStart(w: nat, r: nat): (start: nat)
    ensures start == Span(w, r)
  {
    SpanIsProduct(w, r);
    r * w
  }

  lemma TurnMore(first: seq<Pixel>, before: seq<Pixel>, after: seq<Pixel>, w: nat, h: nat, j: nat)
    requires j * 2 < h && TurnedOver(first, before, w, h, j)
    requires Exchanged(before, after, Span(w, j), Span(w, h - 1 - j), w)
    ensures TurnedOver(first, after, w, h, j + 1)
  {
    forall k: nat, i: nat {:trigger Cell(w, k, i)} | k < h && i < w
      ensures Cell(w, k, i) < |after| && Cell(w, h - 1 - k, i) < |first|
              && after[Cell(w, k, i)] == first[if k < j + 1 || k > h - 1 - (j + 1) then Cell(w, h - 1 - k, i)
                                               else Cell(w, k, i)]
    {
      CellInBounds(w, h, k, i);
      CellInBounds(w, h, h - 1 - k, i);
      ExchangedCell(before, after, w, h, j, k, i);
    }
  }

  lemma ExchangedCell(before: seq<Pixel>, after: seq<Pixel>, w: nat, h: nat, j: nat, k: nat, i: nat)
    requires j * 2 < h && k < h && i < w && |after| == Span(w, h)
    requires Exchanged(before, after, Span(w, j), Span(w, h - 1 - j), w)
    ensures Cell(w, k, i) < |after|
    ensures Cell(w, if k == j || k == h - 1 - j then h - 1 - k else k, i) < |before|
    ensures after[Cell(w, k, i)] == before[Cell(w, if k == j || k == h - 1 - j then h - 1 - k else k, i)]
  {
    CellInBounds(w, h, k, i);
    CellInBounds(w, h, h - 1 - k, i);
    OtherRow(w, k, i, j);
    OtherRow(w, k, i, h - 1 - j);
  }

  lemma OtherRow(w: nat, k: nat, i: nat, r: nat)
    requires i < w
    ensures Span(w, r) <= Cell(w, k, i) < Span(w, r) + w <==> k == r
  {
    if k < r {
      SpanMonotone(w, k, r);
    } else if r < k {
      SpanMonotone(w, r, k);
    }
  }

  /** Puts red and blue back. */
  method SwapChannels(data: array<Pixel>)
    modifies data
    ensures forall k :: 0 <= k < data.Length ==> data[k] == Swapped(old(data[k]))
  {
    for k := 0 to data.Length
      invariant forall l :: 0 <= l < k ==> data[l] == Swapped(old(data[l]))
      invariant forall l :: k <= l < data.Length ==> data[l] == old(data[l])
    {
      data[k] := Swapped(data[k]);
    }
  }

  /** The pixels of an image in memory, from the file's. */
  method ReadImage(s: Context, w: nat, h: nat, comp: nat) returns (data: array<Pixel>)
    modifies s
    ensures fresh(data) && data.Length == Span(w, h)
    ensures Restores(Pixels(old(Left(s)), comp, Span(w, h), 0, false, Pixel([])), data[..], w, h)
  {
    data := new Pixel[RowStart(w, h)](_ => Pixel([]));
    ReadPixels(s, comp, data);
    ghost var read := data[..];
    Invert(data, w, h);
    ghost var turned := data[..];
    SwapChannels(data);
    forall k: nat, i: nat {:trigger Cell(w, k, i)} | k < h && i < w
      ensures Cell(w, k, i) < data.Length && Cell(w, h - 1 - k, i) < |read|
              && data[Cell(w, k, i)] == Swapped(read[Cell(w, h - 1 - k, i)])
    {
      assert turned[Cell(w, k, i)] == read[Cell(w, h - 1 - k, i)];
    }
  }

  /** What the reader does to the pixels of the file: rows turned over, channels back. */
  ghost predicate Restores(read: seq<Pixel>, data: seq<Pixel>, w: nat, h: nat) {
    |read| == |data| == Span(w, h)
    && forall k: nat, i: nat {:trigger Cell(w, k, i)} :: k < h && i < w ==>
         Cell(w, k, i) < |data| && Cell(w, h - 1 - k, i) < |read|
         && data[Cell(w, k, i)] == Swapped(read[Cell(w, h - 1 - k, i)])
  }

  // ----- And back -----

  /** The pixels are those of the image, with the rows turned over if it was flipped. */
  ghost predicate IsImage(data: seq<Pixel>, image: seq<Pixel>, w: nat, h: nat, flip: bool) {
    |data| == |image| == Span(w, h)
    && forall k: nat, i: nat {:trigger Cell(w, k, i)} :: k < h && i < w ==>
         Cell(w, k, i) < |data| && Cell(w, h - 1 - k, i) < |image|
         && data[Cell(w, k, i)] == image[Cell(w, if flip then h - 1 - k else k, i)]
  }

  /** Writing and reading gives the image back, or the image turned over if the writer was told to flip. */
  lemma ImageRoundTrip(image: seq<Pixel>, w: nat, h: nat, comp: nat, flip: bool, ps: seq<Packet>, data: seq<Pixel>)
    requires ArePackets(ps, comp) && InFileOrder(AllPlain(ps), image, w, h, flip, h)
    requires Restores(Pixels(AllCoded(ps, comp), comp, Span(w, h), 0, false, Pixel([])), data, w, h)
    ensures IsImage(data, image, w, h, flip)
    ensures !flip ==> data == image
  {
    PacketsRead(ps, comp, Span(w, h));
    ImageRestored(image, w, h, flip, AllPlain(ps), data);
    if !flip {
      SameCells(image, data, w, h);
    }
  }

  lemma ImageRestored(image: seq<Pixel>, w: nat, h: nat, flip: bool, pixels: seq<Pixel>, data: seq<Pixel>)
    requires InFileOrder(pixels, image, w, h, flip, h) && Restores(SwapAll(pixels), data, w, h)
    ensures IsImage(data, image, w, h, flip)
  {
    forall k: nat, i: nat {:trigger Cell(w, k, i)} | k < h && i < w
      ensures Cell(w, k, i) < |data| == |image| && Cell(w, h - 1 - k, i) < |image|
              && data[Cell(w, k, i)] == image[Cell(w, if flip then h - 1 - k else k, i)]
    {
      PixelRestored(image, w, h, flip, pixels, data, k, i);
    }
  }

  lemma PixelRestored(image: seq<Pixel>, w: nat, h: nat, flip: bool, pixels: seq<Pixel>, data: seq<Pixel>, k: nat,
                      i: nat)
    requires InFileOrder(pixels, image, w, h, flip, h) && Restores(SwapAll(pixels), data, w, h) && k < h && i < w
    ensures Cell(w, k, i) < |data| == |image| && Cell(w, h - 1 - k, i) < |image|
    ensures data[Cell(w, k, i)] == image[Cell(w, if flip then h - 1 - k else k, i)]
  {
    var from := Cell(w, h - 1 - k, i);
    CellInBounds(w, h, k, i);
    CellInBounds(w, h, h - 1 - k, i);
    SwapAllAt(pixels, from);
    SwapTwice(pixels[from]);
    assert SameSource(pixels, image, w, h, flip, h - 1 - k, i);
    assert data[Cell(w, k, i)] == Swapped(SwapAll(pixels)[from]);
  }

  lemma SameCells(image: seq<Pixel>, data: seq<Pixel>, w: nat, h: nat)
    requires IsImage(data, image, w, h, false)
    ensures data == image
  {
    forall t | 0 <= t < |data| ensures data[t] == image[t] {
      var r, i := SpanLocate(w, h, t);
      assert t == Cell(w, r, i);
    }
  }

  method WriteAndRead(image: seq<Pixel>, w: nat, h: nat, comp: nat, flip: bool) returns (data: array<Pixel>)
    requires |image| == Span(w, h) && ArePixels(image, comp)
    ensures IsImage(data[..], image, w, h, flip) && (!flip ==> data[..] == image)
  {
    var out, ps := WriteImage(image, w, h, comp, flip);
    var s := new Context(out);
    Unread(s);
    data := ReadImage(s, w, h, comp);
    ImageRoundTrip(image, w, h, comp, flip, ps, data[..]);
  }

  lemma Unread(s: Context)
    requires s.pos == 0
    ensures Left(s) == s.buffer
  {
  }
}
