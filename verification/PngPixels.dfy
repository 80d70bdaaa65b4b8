/** The reader's reconstruction of filtered rows, in place in the output image, with or without an
opaque alpha byte after every pixel. */
module PngPixels {
  import opened Bits
  import opened Spans
  import opened PngFilter
  import opened PngRows

  // ----- Definition -----

  function LineAt(raw: seq<byte>, w: nat, j: nat): (line: seq<byte>)
    requires Size(w, j + 1) <= |raw|
    ensures |line| == w
  {
    AfterFilter(raw, Size(w, j), w)
  }

  /** The line after the filter number at r. */
  function AfterFilter(raw: seq<byte>, r: nat, w: nat): seq<byte>
    requires r + 1 + w <= |raw|
  {
    raw[r + 1..r + 1 + w]
  }

  /** Row j, rebuilt from its line and from the rows before it. */
  function PlainRow(raw: seq<byte>, w: nat, n: nat, j: nat): (row: seq<byte>)
    requires 0 < n && Size(w, j + 1) <= |raw|
    ensures |row| == w
    decreases j
  {
    SpanMonotone(w + 1, j, j + 1);
    Unfilter(raw[Size(w, j)], LineAt(raw, w, j), if j == 0 then [] else PlainRow(raw, w, n, j - 1), n, w)
  }

  /** The first i pixels of a row of n components, each followed by 255 when outn has room for it. */
  function Spread(row: seq<byte>, n: nat, outn: nat, i: nat): (out: seq<byte>)
    requires Span(n, i) <= |row| && (outn == n || outn == n + 1)
    ensures |out| == Span(outn, i)
  {
    if i == 0 then [] else
      Spread(row, n, outn, i - 1) + row[Span(n, i - 1)..Span(n, i)] + if outn == n then [] else [255]
  }

  function PlainRows(raw: seq<byte>, w: nat, n: nat, k: nat): (rows: seq<seq<byte>>)
    requires 0 < n && Size(w, k) <= |raw|
    ensures |rows| == k && AllWide(rows, w)
  {
    if k == 0 then [] else PlainRows(raw, w, n, k - 1) + [PlainRow(raw, w, n, k - 1)]
  }

  /** Rows of x pixels one after the other, as in the output. */
  function Laid(rows: seq<seq<byte>>, x: nat, n: nat, outn: nat): (out: seq<byte>)
    requires AllWide(rows, Span(n, x)) && (outn == n || outn == n + 1)
    ensures |out| == Span(Span(outn, x), |rows|)
  {
    if rows == [] then [] else
      var k := |rows| - 1;
      Laid(rows[..k], x, n, outn) + Spread(rows[k], n, outn, x)
  }

  /** The output after k rows. */
  function Pixels(raw: seq<byte>, x: nat, n: nat, outn: nat, k: nat): (out: seq<byte>)
    requires 0 < n && Size(Span(n, x), k) <= |raw| && (outn == n || outn == n + 1)
    ensures |out| == Span(Span(outn, x), k)
  {
    Laid(PlainRows(raw, Span(n, x), n, k), x, n, outn)
  }

  predicate GoodFilters(raw: seq<byte>, w: nat, k: nat)
    requires Size(w, k) <= |raw|
  {
    k > 0 ==> Size(w, k - 1) < |raw| && raw[Size(w, k - 1)] <= 4 && GoodFilters(raw, w, k - 1)
  }

  // ----- Spreading -----

  lemma {:induction false} SpreadSame(row: seq<byte>, n: nat, i: nat)
    requires Span(n, i) <= |row|
    ensures Spread(row, n, n, i) == row[..Span(n, i)]
  {
    if i > 0 {
      SpreadSame(row, n, i - 1);
    }
  }

  /** Where component k of pixel i ends up. */
  lemma {:induction false} SpreadAt(row: seq<byte>, n: nat, outn: nat, m: nat, i: nat, k: nat)
    requires i < m && k < n && Span(n, m) <= |row| && (outn == n || outn == n + 1)
    ensures Span(outn, i) + k < Span(outn, m) && Span(n, i) + k < Span(n, m)
    ensures Spread(row, n, outn, m)[Span(outn, i) + k] == row[Span(n, i) + k]
  {
    SpanMonotone(outn, i, m);
    SpanMonotone(n, i, m);
    if i < m - 1 {
      SpanMonotone(outn, i, m - 1);
      SpreadAt(row, n, outn, m - 1, i, k);
      SpreadFront(row, n, outn, m, Span(outn, i) + k);
    } else {
      SameSpread(row, n, outn, m, i);
      SpreadLast(row, n, outn, i, k);
    }
  }

  lemma SpreadFront(row: seq<byte>, n: nat, outn: nat, m: nat, q: nat)
    requires 0 < m && Span(n, m) <= |row| && (outn == n || outn == n + 1) && q < Span(outn, m - 1)
    ensures Spread(row, n, outn, m)[q] == Spread(row, n, outn, m - 1)[q]
  {
  }

  lemma SpreadLast(row: seq<byte>, n: nat, outn: nat, i: nat, k: nat)
    requires k < n && Span(n, i + 1) <= |row| && (outn == n || outn == n + 1)
    ensures Span(n, i) + k < |row| && Span(outn, i) + k < Span(outn, i + 1)
    ensures Spread(row, n, outn, i + 1)[Span(outn, i) + k] == row[Span(n, i) + k]
  {
  }

  lemma SameSpread(row: seq<byte>, n: nat, outn: nat, m: nat, i: nat)
    requires i + 1 == m && Span(n, m) <= |row| && (outn == n || outn == n + 1)
    ensures Span(n, i + 1) <= |row| && Spread(row, n, outn, m) == Spread(row, n, outn, i + 1)
  {
  }

  lemma {:induction false} SpreadAlpha(row: seq<byte>, n: nat, m: nat, i: nat)
    requires i < m && Span(n, m) <= |row|
    ensures Span(n + 1, i) + n < Span(n + 1, m) && Spread(row, n, n + 1, m)[Span(n + 1, i) + n] == 255
  {
    SpanMonotone(n + 1, i, m);
    if i < m - 1 {
      SpreadAlpha(row, n, m - 1, i);
    }
  }

  // ----- Undoing one byte -----

  /** The reader's special cases, numbered like the writer's. */
  function DecodeFirst(kind: nat, v: byte, up: byte): byte {
    if kind == 2 then UChar(v as int + up)
    else if kind == 3 then UChar(v as int + up / 2)
    else if kind == 4 then UChar(v as int + Paeth(0, up, 0))
    else v
  }

  function DecodeNext(kind: nat, v: byte, left: byte, up: byte, upLeft: byte): byte {
    if kind == 1 then UChar(v as int + left)
    else if kind == 2 then UChar(v as int + up)
    else if kind == 3 then UChar(v as int + (left as int + up) / 2)
    else if kind == 4 then UChar(v as int + Paeth(left, up, upLeft))
    else if kind == 5 then UChar(v as int + left / 2)
    else if kind == 6 then UChar(v as int + Paeth(left, 0, 0))
    else v
  }

  lemma DecodeFirstIs(ft: nat, first: bool, v: byte, up: byte)
    requires ft < 5
    ensures DecodeFirst(Kind(ft, first), v, up) == UChar(v as int + Predict(ft, 0, if first then 0 else up, 0))
  {
    KindIs(ft);
    PaethEdges(up);
    PaethEdges(0);
  }

  lemma DecodeNextIs(ft: nat, first: bool, v: byte, left: byte, up: byte, upLeft: byte)
    requires ft < 5
    ensures DecodeNext(Kind(ft, first), v, left, up, upLeft)
         == UChar(v as int + Predict(ft, left, if first then 0 else up, if first then 0 else upLeft))
  {
    KindIs(ft);
  }

  // ----- One row -----

  /** What the decoder of one row works from: the geometry and its line. The rows are given by their
  bytes: prev and row as in the file, above and target as in the output. */
  datatype Job = Job(x: nat, n: nat, outn: nat, w: nat, stride: nat, base: nat, ft: nat, line: seq<byte>, first: bool,
                     ghost prev: seq<byte>, ghost row: seq<byte>, ghost above: seq<byte>, ghost target: seq<byte>)
  {
    ghost predicate Sizes() {
      0 < x && 0 < n <= w && (outn == n || outn == n + 1) && outn <= stride && (outn == n ==> stride == w)
      && stride == Span(outn, x)
      && ft < 5 && |line| == w == |row| && |target| == stride && (!first ==> |prev| == w && |above| == stride)
    }

    ghost predicate Rebuilt()
      requires Sizes()
    {
      forall k {:trigger line[k]} :: 0 <= k < w ==>
        var up := if first then 0 else prev[k];
        if k < n then row[k] == DecodeFirst(Kind(ft, first), line[k], up)
        else row[k] == DecodeNext(Kind(ft, first), line[k], row[k - n], up, if first then 0 else prev[k - n])
    }

    /** Byte p + k of a row as in the file is byte q + k of the output row. */
    ghost predicate Aligned(p: nat, q: nat, k: nat)
      requires Sizes()
    {
      p + k < w && q + k < stride && target[q + k] == row[p + k] && (!first ==> above[q + k] == prev[p + k])
    }

    ghost predicate Pixel(p: nat, q: nat)
      requires Sizes()
    {
      (forall k :: 0 <= k < n ==> Aligned(p, q, k)) && (outn != n ==> q + n < stride && target[q + n] == 255)
    }

    ghost predicate Shape() {
      Sizes() && Rebuilt()
      && (forall i {:trigger Pixel(Span(n, i), Span(outn, i))} :: 0 <= i < x ==> Pixel(Span(n, i), Span(outn, i)))
      && (outn == n ==> row == target && (!first ==> prev == above))
    }

    ghost predicate Placed(out: array<byte>)
      reads out
    {
      |target| == stride && base + stride <= out.Length
      && (first || (stride <= base && out[base - stride..base] == above))
    }

    /** The first q bytes of the row are in place. */
    ghost predicate Filled(out: array<byte>, q: nat)
      reads out
    {
      Placed(out) && q <= stride && out[base..base + q] == target[..q]
    }
  }

  /** Writes byte q of the current row, which disturbs nothing before it. */
  method Store(job: Job, out: array<byte>, q: nat, v: byte)
    requires job.Filled(out, q) && q < job.stride && v == job.target[q]
    modifies out
    ensures job.Filled(out, q + 1) && out[..job.base] == old(out[..job.base])
  {
    out[job.base + q] := v;
    assert out[..job.base] == old(out[..job.base]);
    assert !job.first ==> out[job.base - job.stride..job.base] == old(out[job.base - job.stride..job.base]);
  }

  /** A byte of the row above, zero above the first row. */
  method ReadAbove(job: Job, out: array<byte>, q: nat) returns (up: byte)
    requires job.Placed(out) && q < job.stride
    ensures up == if job.first then 0 else job.above[q]
  {
    if job.first {
      up := 0;
    } else {
      up := out[job.base - job.stride + q];
      assert up == out[job.base - job.stride..job.base][q];
    }
  }

  method ReadLeft(job: Job, out: array<byte>, q: nat) returns (left: byte)
    requires job.Filled(out, q) && job.outn <= q < job.stride && 0 < job.outn
    ensures left == job.target[q - job.outn]
  {
    left := out[job.base + q - job.outn];
    assert left == out[job.base..job.base + q][q - job.outn];
  }

  method DecodeFirstPixel(job: Job, out: array<byte>)
    requires job.Shape() && job.Placed(out)
    modifies out
    ensures job.Filled(out, job.outn) && out[..job.base] == old(out[..job.base])
  {
    var kind := Kind(job.ft, job.first);
    assert job.Pixel(Span(job.n, 0), Span(job.outn, 0));
    var k := 0;
    while k < job.n
      invariant 0 <= k <= job.n && job.Filled(out, k)
      invariant out[..job.base] == old(out[..job.base])
    {
      var up := ReadAbove(job, out, k);
      assert job.Aligned(0, 0, k);
      Store(job, out, k, DecodeFirst(kind, job.line[k], up));
      k := k + 1;
    }
    if job.outn != job.n {
      Store(job, out, job.n, 255);
    }
  }

  /** Byte q of the output, which is byte p of the row, from the pixel before it and the row above. */
  method DecodeByte(job: Job, out: array<byte>, kind: nat, p: nat, q: nat)
    requires job.Sizes() && job.Rebuilt() && job.Filled(out, q) && kind == Kind(job.ft, job.first)
    requires job.n <= p < job.w && job.outn <= q < job.stride
    requires job.target[q] == job.row[p] && job.target[q - job.outn] == job.row[p - job.n]
    requires !job.first ==> job.above[q] == job.prev[p] && job.above[q - job.outn] == job.prev[p - job.n]
    modifies out
    ensures job.Filled(out, q + 1) && out[..job.base] == old(out[..job.base])
  {
    var up := ReadAbove(job, out, q);
    var upLeft := ReadAbove(job, out, q - job.outn);
    var left := ReadLeft(job, out, q);
    Store(job, out, q, DecodeNext(kind, job.line[p], left, up, upLeft));
  }

  /** The rest of a row that gets an alpha byte after every pixel. */
  method DecodeAlphaRest(job: Job, out: array<byte>)
    requires job.Shape() && job.Filled(out, job.outn) && job.outn == job.n + 1
    modifies out
    ensures job.Filled(out, job.stride) && out[..job.base] == old(out[..job.base])
  {
    var kind := Kind(job.ft, job.first);
    var i: nat, p: nat, q: nat := 1, job.n, job.outn;
    OneSpan(job.n);
    OneSpan(job.outn);
    while i < job.x
      invariant 0 < i <= job.x && p == Span(job.n, i) && q == Span(job.outn, i)
      invariant job.Filled(out, q) && out[..job.base] == old(out[..job.base])
    {
      i, p, q := DecodeAlphaPixel(job, out, kind, i, p, q);
    }
    SameSpan(job.outn, i, job.x);
  }

  lemma OneSpan(step: nat)
    ensures Span(step, 1) == step
  {
  }

  lemma SameSpan(step: nat, i: nat, m: nat)
    requires i == m
    ensures Span(step, i) == Span(step, m)
  {
  }

  method DecodeAlphaPixel(job: Job, out: array<byte>, kind: nat, i: nat, p: nat, q: nat)
    returns (i': nat, p': nat, q': nat)
    requires job.Shape() && job.Filled(out, q) && job.outn == job.n + 1 && kind == Kind(job.ft, job.first)
    requires 0 < i < job.x && p == Span(job.n, i) && q == Span(job.outn, i)
    modifies out
    ensures i' == i + 1 && p' == Span(job.n, i') && q' == Span(job.outn, i')
    ensures job.Filled(out, q') && out[..job.base] == old(out[..job.base])
  {
    TwoPixels(job, i, p, q);
    DecodePixel(job, out, kind, p, q);
    i', p', q' := i + 1, p + job.n, q + job.outn;
    StoreAlpha(job, out, p, q, q');
  }

  /** A pixel and the one before it. */
  lemma TwoPixels(job: Job, i: nat, p: nat, q: nat)
    requires job.Shape() && 0 < i < job.x && p == Span(job.n, i) && q == Span(job.outn, i)
    ensures job.n <= p && job.outn <= q && job.Pixel(p, q) && job.Pixel(p - job.n, q - job.outn)
  {
    assert job.Pixel(Span(job.n, i), Span(job.outn, i));
    assert job.Pixel(Span(job.n, i - 1), Span(job.outn, i - 1));
  }

  method StoreAlpha(job: Job, out: array<byte>, p: nat, q: nat, next: nat)
    requires job.Sizes() && job.Pixel(p, q) && job.Filled(out, q + job.n) && job.outn != job.n && next == q + job.outn
    modifies out
    ensures job.Filled(out, next) && out[..job.base] == old(out[..job.base])
  {
    Store(job, out, q + job.n, 255);
  }

  method DecodePixel(job: Job, out: array<byte>, kind: nat, p: nat, q: nat)
    requires job.Sizes() && job.Rebuilt() && job.Filled(out, q) && kind == Kind(job.ft, job.first)
    requires job.n <= p && job.outn <= q && job.Pixel(p, q) && job.Pixel(p - job.n, q - job.outn)
    modifies out
    ensures job.Filled(out, q + job.n) && out[..job.base] == old(out[..job.base])
  {
    var k := 0;
    while k < job.n
      invariant 0 <= k <= job.n && q + k <= job.stride && job.Filled(out, q + k)
      invariant out[..job.base] == old(out[..job.base])
    {
      DecodeComponent(job, out, kind, p, q, k);
      k := k + 1;
    }
  }

  method DecodeComponent(job: Job, out: array<byte>, kind: nat, p: nat, q: nat, k: nat)
    requires job.Sizes() && job.Rebuilt() && job.Filled(out, q + k) && kind == Kind(job.ft, job.first) && k < job.n
    requires job.n <= p && job.outn <= q && job.Pixel(p, q) && job.Pixel(p - job.n, q - job.outn)
    modifies out
    ensures job.Filled(out, q + k + 1) && out[..job.base] == old(out[..job.base])
  {
    var pk, qk := p + k, q + k;
    AlignedBytes(job, p, q, k, pk, qk);
    DecodeByte(job, out, kind, pk, qk);
  }

  lemma AlignedBytes(job: Job, p: nat, q: nat, k: nat, pk: nat, qk: nat)
    requires job.Sizes() && k < job.n <= p && job.outn <= q && job.Pixel(p, q) && job.Pixel(p - job.n, q - job.outn)
    requires pk == p + k && qk == q + k
    ensures job.n <= pk < job.w && job.outn <= qk < job.stride
    ensures job.target[qk] == job.row[pk] && job.target[qk - job.outn] == job.row[pk - job.n]
    ensures !job.first ==> job.above[qk] == job.prev[pk] && job.above[qk - job.outn] == job.prev[pk - job.n]
  {
    assert job.Aligned(p, q, k) && job.Aligned(p - job.n, q - job.outn, k);
  }

  /** The rest of a row whose components are all in the file. */
  method DecodePlainRest(job: Job, out: array<byte>)
    requires job.Sizes() && job.Rebuilt() && job.row == job.target && (!job.first ==> job.prev == job.above)
    requires job.Filled(out, job.outn) && job.outn == job.n
    modifies out
    ensures job.Filled(out, job.stride) && out[..job.base] == old(out[..job.base])
  {
    var kind := Kind(job.ft, job.first);
    var k := job.n;
    while k < job.w
      invariant job.n <= k <= job.w && job.Filled(out, k)
      invariant out[..job.base] == old(out[..job.base])
    {
      DecodeByte(job, out, kind, k, k);
      k := k + 1;
    }
  }

  lemma FilledAll(job: Job, out: array<byte>, before: seq<byte>, next: nat)
    requires job.Filled(out, job.stride) && next == job.base + job.stride && before == out[..job.base]
    ensures out[..next] == before + job.target
  {
    assert out[..next] == out[..job.base] + out[job.base..next];
  }

  method DecodeRow(job: Job, out: array<byte>, ghost before: seq<byte>, ghost next: nat)
    requires job.Shape() && job.Placed(out) && before == out[..job.base] && next == job.base + job.stride
    modifies out
    ensures next <= out.Length && out[..next] == before + job.target
  {
    DecodeFirstPixel(job, out);
    if job.outn == job.n {
      DecodePlainRest(job, out);
    } else {
      DecodeAlphaRest(job, out);
    }
    FilledAll(job, out, before, next);
  }

  // ----- All rows -----

  lemma JobReady(job: Job)
    requires job.Sizes() && job.w == Span(job.n, job.x)
    requires job.first == (job.prev == []) && (job.first || job.above == Spread(job.prev, job.n, job.outn, job.x))
    requires job.row == Unfilter(job.ft, job.line, job.prev, job.n, job.w)
    requires job.target == Spread(job.row, job.n, job.outn, job.x)
    ensures job.Shape()
  {
    JobRebuilt(job);
    forall i | 0 <= i < job.x ensures job.Pixel(Span(job.n, i), Span(job.outn, i)) {
      JobPixel(job, i);
    }
    if job.outn == job.n {
      SpreadSame(job.row, job.n, job.x);
      if !job.first {
        SpreadSame(job.prev, job.n, job.x);
      }
    }
  }

  lemma JobRebuilt(job: Job)
    requires job.Sizes() && job.first == (job.prev == [])
    requires job.row == Unfilter(job.ft, job.line, job.prev, job.n, job.w)
    ensures job.Rebuilt()
  {
    forall k {:trigger job.line[k]} | 0 <= k < job.w
      ensures var up := if job.first then 0 else job.prev[k];
              if k < job.n then job.row[k] == DecodeFirst(Kind(job.ft, job.first), job.line[k], up)
              else job.row[k] == DecodeNext(Kind(job.ft, job.first), job.line[k], job.row[k - job.n], up,
                                            if job.first then 0 else job.prev[k - job.n])
    {
      UnfilterAt(job.ft, job.line, job.prev, job.n, job.w, k);
      var up := if job.first then 0 else job.prev[k];
      if k < job.n {
        DecodeFirstIs(job.ft, job.first, job.line[k], up);
      } else {
        DecodeNextIs(job.ft, job.first, job.line[k], job.row[k - job.n], up,
                     if job.first then 0 else job.prev[k - job.n]);
      }
    }
  }

  lemma JobPixel(job: Job, i: nat)
    requires job.Sizes() && job.w == Span(job.n, job.x) && i < job.x
    requires job.first || job.above == Spread(job.prev, job.n, job.outn, job.x)
    requires job.target == Spread(job.row, job.n, job.outn, job.x)
    ensures job.Pixel(Span(job.n, i), Span(job.outn, i))
  {
    var p, q := Span(job.n, i), Span(job.outn, i);
    forall k | 0 <= k < job.n ensures job.Aligned(p, q, k) {
      JobAligned(job, i, p, q, k);
    }
    if job.outn != job.n {
      SpreadAlpha(job.row, job.n, job.x, i);
    }
  }

  lemma JobAligned(job: Job, i: nat, p: nat, q: nat, k: nat)
    requires job.Sizes() && job.w == Span(job.n, job.x) && i < job.x && k < job.n
    requires p == Span(job.n, i) && q == Span(job.outn, i)
    requires job.first || job.above == Spread(job.prev, job.n, job.outn, job.x)
    requires job.target == Spread(job.row, job.n, job.outn, job.x)
    ensures job.Aligned(p, q, k)
  {
    SpreadAt(job.row, job.n, job.outn, job.x, i, k);
    if !job.first {
      SpreadAt(job.prev, job.n, job.outn, job.x, i, k);
    }
  }

  lemma {:induction false} GoodFiltersPrefix(raw: seq<byte>, w: nat, j: nat, k: nat)
    requires j <= k && Size(w, k) <= |raw| && GoodFilters(raw, w, k)
    ensures Size(w, j) <= |raw| && GoodFilters(raw, w, j)
  {
    if j < k {
      GoodFiltersPrefix(raw, w, j, k - 1);
    }
  }

  lemma BadFilter(raw: seq<byte>, w: nat, j: nat, y: nat)
    requires j < y && Size(w, y) <= |raw|
    ensures Size(w, j) + w + 1 == Size(w, j + 1) <= |raw|
    ensures raw[Size(w, j)] > 4 ==> !GoodFilters(raw, w, y)
  {
    SpanMonotone(w + 1, j, y);
    if GoodFilters(raw, w, y) {
      GoodFiltersPrefix(raw, w, j + 1, y);
    }
  }

  /** Decodes into out, row by row; false on the first unknown filter. */
  method DecodeRows(raw: seq<byte>, out: array<byte>, x: nat, y: nat, n: nat, outn: nat, w: nat, stride: nat)
    returns (ok: bool)
    requires 0 < x && 0 < n && (outn == n || outn == n + 1) && w == Span(n, x) && stride == Span(outn, x)
    requires Size(w, y) <= |raw| && out.Length == Span(stride, y)
    modifies out
    ensures ok <==> GoodFilters(raw, w, y)
    ensures ok ==> out[..] == Pixels(raw, x, n, outn, y)
  {
    var j: nat, r: nat, base: nat := 0, 0, 0;
    while j < y
      invariant j <= y && Reached(raw, out, x, n, outn, w, stride, j, r, base)
    {
      ok, j, r, base := NextRow(raw, out, x, y, n, outn, w, stride, j, r, base);
      if !ok {
        return;
      }
    }
    ok := true;
    AllReached(raw, out, x, n, outn, w, stride, j, y, r, base);
  }

  lemma AllReached(raw: seq<byte>, out: array<byte>, x: nat, n: nat, outn: nat, w: nat, stride: nat, j: nat, y: nat,
                   r: nat, base: nat)
    requires 0 < n && (outn == n || outn == n + 1) && w == Span(n, x) && out.Length == Span(stride, y)
    requires j == y && Reached(raw, out, x, n, outn, w, stride, j, r, base)
    ensures GoodFilters(raw, w, y) && out[..] == Pixels(raw, x, n, outn, y)
  {
    SameSpan(stride, j, y);
    assert out[..] == out[..base];
  }

  /** The first j rows have been decoded; r and base are the positions after them. */
  ghost predicate Reached(raw: seq<byte>, out: array<byte>, x: nat, n: nat, outn: nat, w: nat, stride: nat, j: nat,
                          r: nat, base: nat)
    requires 0 < n && (outn == n || outn == n + 1) && w == Span(n, x)
    reads out
  {
    && r == Size(w, j) <= |raw| && base == Span(stride, j) <= out.Length
    && GoodFilters(raw, w, j) && out[..base] == Pixels(raw, x, n, outn, j)
  }

  method NextRow(raw: seq<byte>, out: array<byte>, x: nat, y: nat, n: nat, outn: nat, w: nat, stride: nat,
                 j: nat, r: nat, base: nat)
    returns (ok: bool, j': nat, r': nat, base': nat)
    requires 0 < x && 0 < n && (outn == n || outn == n + 1) && w == Span(n, x) && stride == Span(outn, x)
    requires Size(w, y) <= |raw| && out.Length == Span(stride, y) && j < y
    requires Reached(raw, out, x, n, outn, w, stride, j, r, base)
    modifies out
    ensures ok ==> j' == j + 1 && Reached(raw, out, x, n, outn, w, stride, j', r', base')
    ensures !ok ==> !GoodFilters(raw, w, y)
  {
    BadFilter(raw, w, j, y);
    SpanMonotone(stride, j, y);
    j', r', base' := j + 1, r + 1 + w, base + stride;
    if raw[r] > 4 {
      return false, j', r', base';
    }
    DecodeNextRow(raw, out, x, n, outn, w, stride, j, r, base, base');
    ok := true;
  }

  method DecodeNextRow(raw: seq<byte>, out: array<byte>, x: nat, n: nat, outn: nat, w: nat, stride: nat, j: nat,
                       r: nat, base: nat, ghost next: nat)
    requires 0 < x && 0 < n && (outn == n || outn == n + 1) && w == Span(n, x) && stride == Span(outn, x)
    requires r == Size(w, j) <= Size(w, j + 1) <= |raw| && r < |raw| && raw[r] <= 4
    requires base + stride == next <= out.Length && out[..base] == Pixels(raw, x, n, outn, j)
    modifies out
    ensures out[..next] == Pixels(raw, x, n, outn, j + 1)
  {
    var job := MakeJob(raw, x, n, outn, w, stride, j, r, base);
    ghost var before := out[..base];
    RowContext(raw, x, n, outn, w, stride, j, before);
    assert job.first || (stride <= |before| && before[|before| - stride..] == job.above);
    DecodeJob(job, out, before, next);
  }

  method MakeJob(raw: seq<byte>, x: nat, n: nat, outn: nat, w: nat, stride: nat, j: nat, r: nat, base: nat)
    returns (job: Job)
    requires 0 < x && 0 < n && (outn == n || outn == n + 1) && w == Span(n, x) && stride == Span(outn, x)
    requires r == Size(w, j) && Size(w, j + 1) <= |raw| && raw[r] <= 4
    ensures job.Shape() && job.base == base && job.stride == stride && job.first == (j == 0)
    ensures job.target == Spread(PlainRow(raw, w, n, j), n, outn, x)
    ensures j > 0 ==> job.above == Spread(PlainRow(raw, w, n, j - 1), n, outn, x)
  {
    ghost var prev := if j == 0 then [] else PlainRow(raw, w, n, j - 1);
    ghost var above := if j == 0 then [] else Spread(prev, n, outn, x);
    ghost var row := PlainRow(raw, w, n, j);
    ghost var target := Spread(row, n, outn, x);
    var line := AfterFilter(raw, r, w);
    job := Job(x, n, outn, w, stride, base, raw[r], line, j == 0, prev, row, above, target);
    RowJob(raw, j, job);
  }

  method DecodeJob(job: Job, out: array<byte>, ghost before: seq<byte>, ghost next: nat)
    requires job.Shape() && job.base + job.stride == next <= out.Length && before == out[..job.base]
    requires job.first || (job.stride <= |before| && before[|before| - job.stride..] == job.above)
    modifies out
    ensures out[..next] == before + job.target
  {
    assert job.first || out[job.base - job.stride..job.base] == before[job.base - job.stride..];
    DecodeRow(job, out, before, next);
  }

  lemma RowJob(raw: seq<byte>, j: nat, job: Job)
    requires 0 < job.x && 0 < job.n && (job.outn == job.n || job.outn == job.n + 1)
    requires job.w == Span(job.n, job.x) && job.stride == Span(job.outn, job.x) && Size(job.w, j + 1) <= |raw|
    requires job.ft == raw[Size(job.w, j)] && job.ft < 5 && job.line == LineAt(raw, job.w, j) && job.first == (j == 0)
    requires job.prev == if j == 0 then [] else PlainRow(raw, job.w, job.n, j - 1)
    requires job.first || job.above == Spread(job.prev, job.n, job.outn, job.x)
    requires job.row == PlainRow(raw, job.w, job.n, j) && job.target == Spread(job.row, job.n, job.outn, job.x)
    ensures job.Shape()
  {
    SpanMonotone(job.n, 1, job.x);
    SpanMonotone(job.outn, 1, job.x);
    JobReady(job);
  }

  /** How the output grows by a row. */
  lemma RowAfter(raw: seq<byte>, x: nat, n: nat, outn: nat, j: nat, out: seq<byte>, row: seq<byte>)
    requires 0 < n && (outn == n || outn == n + 1) && Size(Span(n, x), j) <= Size(Span(n, x), j + 1) <= |raw|
    requires out == Pixels(raw, x, n, outn, j) && row == Spread(PlainRow(raw, Span(n, x), n, j), n, outn, x)
    ensures Pixels(raw, x, n, outn, j + 1) == out + row
  {
    LaidSnoc(PlainRows(raw, Span(n, x), n, j), PlainRow(raw, Span(n, x), n, j), x, n, outn);
  }

  /** What its last row is. */
  lemma RowBefore(raw: seq<byte>, x: nat, n: nat, outn: nat, w: nat, i: nat, j: nat, out: seq<byte>)
    requires 0 < n && (outn == n || outn == n + 1) && w == Span(n, x) && Size(w, j) <= |raw| && j == i + 1
    requires out == Pixels(raw, x, n, outn, j)
    ensures Size(w, i) <= Size(w, i + 1) <= |raw|
    ensures Span(outn, x) <= |out| && out[|out| - Span(outn, x)..] == Spread(PlainRow(raw, w, n, i), n, outn, x)
  {
    SpanMonotone(w + 1, i, i + 1);
    SamePixels(raw, x, n, outn, i + 1, j);
    RowAfter(raw, x, n, outn, i, Pixels(raw, x, n, outn, i), Spread(PlainRow(raw, w, n, i), n, outn, x));
  }

  lemma SamePixels(raw: seq<byte>, x: nat, n: nat, outn: nat, i: nat, j: nat)
    requires 0 < n && (outn == n || outn == n + 1) && Size(Span(n, x), j) <= |raw| && i == j
    ensures Size(Span(n, x), i) <= |raw| && Pixels(raw, x, n, outn, i) == Pixels(raw, x, n, outn, j)
  {
  }

  lemma RowContext(raw: seq<byte>, x: nat, n: nat, outn: nat, w: nat, stride: nat, j: nat, out: seq<byte>)
    requires 0 < n && (outn == n || outn == n + 1) && w == Span(n, x) && stride == Span(outn, x)
    requires Size(w, j) <= Size(w, j + 1) <= |raw| && out == Pixels(raw, x, n, outn, j)
    ensures Pixels(raw, x, n, outn, j + 1) == out + Spread(PlainRow(raw, w, n, j), n, outn, x)
    ensures j > 0 ==> Size(w, j) <= |raw| && stride <= |out|
                      && out[|out| - stride..] == Spread(PlainRow(raw, w, n, j - 1), n, outn, x)
  {
    RowAfter(raw, x, n, outn, j, out, Spread(PlainRow(raw, w, n, j), n, outn, x));
    if j > 0 {
      RowBefore(raw, x, n, outn, w, j - 1, j, out);
    }
  }

  lemma LaidSnoc(rows: seq<seq<byte>>, row: seq<byte>, x: nat, n: nat, outn: nat)
    requires AllWide(rows, Span(n, x)) && |row| == Span(n, x) && (outn == n || outn == n + 1)
    ensures Laid(rows + [row], x, n, outn) == Laid(rows, x, n, outn) + Spread(row, n, outn, x)
  {
    assert (rows + [row])[..|rows|] == rows;
  }
}
