/** Adam7 interlacing: the seven passes over an image split its pixels, and scattering the passes puts
every pixel in its place. Clause 8.2 of the PNG specification. */
module Adam7 {
  import opened Bits
  import opened Spans

  function XOrig(p: nat): nat
    requires p < 7
  {
    [0, 4, 0, 2, 0, 1, 0][p]
  }

  function YOrig(p: nat): nat
    requires p < 7
  {
    [0, 0, 4, 0, 2, 0, 1][p]
  }

  function XSpc(p: nat): (s: nat)
    requires p < 7
    ensures 0 < s && XOrig(p) < s
  {
    [8, 8, 4, 4, 2, 2, 1][p]
  }

  function YSpc(p: nat): (s: nat)
    requires p < 7
    ensures 0 < s && YOrig(p) < s
  {
    [8, 8, 8, 4, 4, 2, 2][p]
  }

  /** How many columns, or rows, a pass takes from the given size. */
  function Taken(size: nat, orig: nat, spc: nat): nat
    requires orig < spc
  {
    (size - orig + spc - 1) / spc
  }

  function PassWidth(w: nat, p: nat): nat
    requires p < 7
  {
    Taken(w, XOrig(p), XSpc(p))
  }

  function PassHeight(h: nat, p: nat): nat
    requires p < 7
  {
    Taken(h, YOrig(p), YSpc(p))
  }

  /** The column of the image that column i of pass p comes from, and likewise for rows. */
  function Col(p: nat, i: nat): nat
    requires p < 7
  {
    i * XSpc(p) + XOrig(p)
  }

  function Row(p: nat, j: nat): nat
    requires p < 7
  {
    j * YSpc(p) + YOrig(p)
  }

  // ----- The passes are a partition -----

  /** Pixel (i, j) of pass p is in the image. */
  lemma PassInBounds(w: nat, h: nat, p: nat, i: nat, j: nat)
    requires p < 7 && i < PassWidth(w, p) && j < PassHeight(h, p)
    ensures Col(p, i) < w && Row(p, j) < h
  {
  }

  /** The pass that pixel (x, y) belongs to. */
  function PassOf(x: nat, y: nat): (p: nat)
    ensures p < 7
  {
    if y % 2 == 1 then 6
    else if x % 2 == 1 then 5
    else if y % 4 == 2 then 4
    else if x % 4 == 2 then 3
    else if y % 8 == 4 then 2
    else if x % 8 == 4 then 1
    else 0
  }

  /** The pattern of the specification, eight rows of eight pixels, with the passes counted from 1. */
  const PATTERN: seq<seq<nat>> := [[1, 6, 4, 6, 2, 6, 4, 6],
                                   [7, 7, 7, 7, 7, 7, 7, 7],
                                   [5, 6, 5, 6, 5, 6, 5, 6],
                                   [7, 7, 7, 7, 7, 7, 7, 7],
                                   [3, 6, 4, 6, 3, 6, 4, 6],
                                   [7, 7, 7, 7, 7, 7, 7, 7],
                                   [5, 6, 5, 6, 5, 6, 5, 6],
                                   [7, 7, 7, 7, 7, 7, 7, 7]]

  lemma PassIsPattern(x: nat, y: nat)
    ensures |PATTERN[y % 8]| == 8 && PassOf(x, y) + 1 == PATTERN[y % 8][x % 8]
  {
    Mods(x);
    Mods(y);
    PatternOfResidues(x % 8, y % 8);
    assert PassOf(x, y) == PassOf(x % 8, y % 8);
  }

  lemma PatternOfResidues(x: nat, y: nat)
    requires x < 8 && y < 8
    ensures |PATTERN[y]| == 8 && PassOf(x, y) + 1 == PATTERN[y][x]
  {
  }

  lemma Column(w: nat, orig: nat, spc: nat, x: nat)
    requires orig < spc && spc in {1, 2, 4, 8} && x < w && x % spc == orig
    ensures 0 <= (x - orig) / spc < Taken(w, orig, spc) && ((x - orig) / spc) * spc + orig == x
  {
  }

  /** Every pixel of the image belongs to one pass, at one place. */
  lemma PassCovers(w: nat, h: nat, x: nat, y: nat)
    requires x < w && y < h
    ensures var p := PassOf(x, y);
            var i, j := (x - XOrig(p)) / XSpc(p), (y - YOrig(p)) / YSpc(p);
            0 <= i < PassWidth(w, p) && 0 <= j < PassHeight(h, p)
            && Col(p, i) == x && Row(p, j) == y
  {
    var p := PassOf(x, y);
    Residues(x, y);
    Column(w, XOrig(p), XSpc(p), x);
    Column(h, YOrig(p), YSpc(p), y);
  }

  lemma Residues(x: nat, y: nat)
    ensures var p := PassOf(x, y);
            x % XSpc(p) == XOrig(p) && y % YSpc(p) == YOrig(p) && XSpc(p) in {1, 2, 4, 8} && YSpc(p) in {1, 2, 4, 8}
  {
    Mods(x);
    Mods(y);
  }

  lemma OfResidues(p: nat, x: nat, y: nat)
    requires p < 7 && x % XSpc(p) == XOrig(p) && y % YSpc(p) == YOrig(p)
    ensures PassOf(x, y) == p
  {
    Mods(x);
    Mods(y);
  }

  lemma Mods(v: nat)
    ensures v % 1 == 0 && v % 4 == v % 8 % 4 && v % 2 == v % 4 % 2
  {
  }

  /** No two places in the passes are the same pixel. */
  lemma PassUnique(p: nat, i: nat, j: nat)
    requires p < 7
    ensures var x, y := Col(p, i), Row(p, j);
            PassOf(x, y) == p && (x - XOrig(p)) / XSpc(p) == i && (y - YOrig(p)) / YSpc(p) == j
  {
    Multiple(XOrig(p), XSpc(p), i);
    Multiple(YOrig(p), YSpc(p), j);
    OfResidues(p, Col(p, i), Row(p, j));
  }

  lemma Multiple(orig: nat, spc: nat, i: nat)
    requires orig < spc && spc in {1, 2, 4, 8}
    ensures (i * spc + orig) % spc == orig && (i * spc + orig - orig) / spc == i
  {
  }

  /** The number of pixels in the first p passes. */
  function PassArea(w: nat, h: nat, p: nat): nat
    requires p <= 7
  {
    if p == 0 then 0 else PassArea(w, h, p - 1) + Area(PassWidth(w, p - 1), PassHeight(h, p - 1))
  }

  function Area(w: nat, h: nat): nat {
    w * h
  }

  /** The seven passes together have as many pixels as the image. */
  lemma PassAreas(w: nat, h: nat)
    ensures PassArea(w, h, 7) == w * h
  {
    var w1, h1 := (w + 1) / 2, (h + 1) / 2;
    var w2, h2 := (w1 + 1) / 2, (h1 + 1) / 2;
    var w3, h3 := (w2 + 1) / 2, (h2 + 1) / 2;
    Quarter(w, h);
    Quarter(w1, h1);
    Quarter(w2, h2);
    Sizes(w, h);
    AreaNext(w, h, 0, w3, h3);
    AreaNext(w, h, 1, w2 / 2, h3);
    AreaNext(w, h, 2, w2, h2 / 2);
    AreaNext(w, h, 3, w1 / 2, h2);
    AreaNext(w, h, 4, w1, h1 / 2);
    AreaNext(w, h, 5, w / 2, h1);
    AreaNext(w, h, 6, w, h / 2);
  }

  lemma AreaNext(w: nat, h: nat, p: nat, a: nat, b: nat)
    requires p < 7 && a == PassWidth(w, p) && b == PassHeight(h, p)
    ensures PassArea(w, h, p + 1) == PassArea(w, h, p) + a * b && PassArea(w, h, 0) == 0
  {
  }

  lemma Sizes(w: nat, h: nat)
    ensures PassWidth(w, 0) == (((w + 1) / 2 + 1) / 2 + 1) / 2 && PassHeight(h, 0) == (((h + 1) / 2 + 1) / 2 + 1) / 2
    ensures PassWidth(w, 1) == ((w + 1) / 2 + 1) / 2 / 2 && PassHeight(h, 1) == (((h + 1) / 2 + 1) / 2 + 1) / 2
    ensures PassWidth(w, 2) == ((w + 1) / 2 + 1) / 2 && PassHeight(h, 2) == ((h + 1) / 2 + 1) / 2 / 2
    ensures PassWidth(w, 3) == (w + 1) / 2 / 2 && PassHeight(h, 3) == ((h + 1) / 2 + 1) / 2
    ensures PassWidth(w, 4) == (w + 1) / 2 && PassHeight(h, 4) == (h + 1) / 2 / 2
    ensures PassWidth(w, 5) == w / 2 && PassHeight(h, 5) == (h + 1) / 2
    ensures PassWidth(w, 6) == w && PassHeight(h, 6) == h / 2
  {
    Widths(w);
    Heights(h);
  }

  lemma Widths(w: nat)
    ensures PassWidth(w, 0) == (((w + 1) / 2 + 1) / 2 + 1) / 2 && PassWidth(w, 1) == ((w + 1) / 2 + 1) / 2 / 2
    ensures PassWidth(w, 2) == ((w + 1) / 2 + 1) / 2 && PassWidth(w, 3) == (w + 1) / 2 / 2
    ensures PassWidth(w, 4) == (w + 1) / 2 && PassWidth(w, 5) == w / 2 && PassWidth(w, 6) == w
  {
    Halves(w);
  }

  lemma Heights(h: nat)
    ensures PassHeight(h, 0) == PassHeight(h, 1) == (((h + 1) / 2 + 1) / 2 + 1) / 2
    ensures PassHeight(h, 2) == ((h + 1) / 2 + 1) / 2 / 2 && PassHeight(h, 3) == ((h + 1) / 2 + 1) / 2
    ensures PassHeight(h, 4) == (h + 1) / 2 / 2 && PassHeight(h, 5) == (h + 1) / 2 && PassHeight(h, 6) == h / 2
  {
    Halves(h);
  }

  lemma Halves(v: nat)
    ensures (v + 3) / 4 == ((v + 1) / 2 + 1) / 2 && (v + 7) / 8 == ((v + 3) / 4 + 1) / 2
    ensures (v + 3) / 8 == (v + 3) / 4 / 2 && (v + 1) / 4 == (v + 1) / 2 / 2
  {
  }

  /** Halving both sides leaves a quarter, a strip at the right, and a strip below. */
  lemma Quarter(w: nat, h: nat)
    ensures w * h == ((w + 1) / 2) * ((h + 1) / 2) + (w / 2) * ((h + 1) / 2) + w * (h / 2)
  {
    var w1, h1 := (w + 1) / 2, (h + 1) / 2;
    assert w == w1 + w / 2 && h == h1 + h / 2;
    Distribute(w1, w / 2, h1);
    assert w * h == w * h1 + w * (h / 2) by {
      Distribute(h1, h / 2, w);
    }
  }

  lemma Distribute(a: nat, b: nat, c: nat)
    ensures (a + b) * c == a * c + b * c && c * (a + b) == c * a + c * b
  {
  }

  // ----- Scattering -----

  /** Where component k of pixel (x, y) lies in an image of width w. */
  function Place(w: nat, size: nat, x: nat, y: nat, k: nat): nat {
    Span(size, Span(w, y) + x) + k
  }

  lemma PlaceIsProduct(w: nat, size: nat, x: nat, y: nat, k: nat)
    ensures Place(w, size, x, y, k) == y * w * size + x * size + k
  {
    SpanIsProduct(w, y);
    SpanIsProduct(size, w * y + x);
    Distribute(w * y, x, size);
  }

  lemma PlaceInBounds(w: nat, h: nat, size: nat, x: nat, y: nat, k: nat)
    requires x < w && y < h && k < size
    ensures Place(w, size, x, y, k) < Span(size, Span(w, h))
  {
    SpanMonotone(w, y, h);
    SpanMonotone(size, Span(w, y) + x, Span(w, h));
  }

  lemma PlaceIsUnique(w: nat, size: nat, x: nat, y: nat, k: nat, x': nat, y': nat, k': nat)
    requires x < w && x' < w && k < size && k' < size
    requires Place(w, size, x, y, k) == Place(w, size, x', y', k')
    ensures x == x' && y == y' && k == k'
  {
    PlaceInStep(size, Span(w, y) + x, k, Span(w, y') + x', k');
    PlaceInStep(w, y, x, y', x');
  }

  function Size(w: nat, h: nat, size: nat): nat {
    Span(size, Span(w, h))
  }

  function PassSize(w: nat, h: nat, size: nat, p: nat): nat
    requires p < 7
  {
    Size(PassWidth(w, p), PassHeight(h, p), size)
  }

  /** Component k of pixel (x, y), taken from its pass. */
  function PassByte(w: nat, h: nat, size: nat, pass: seq<byte>, x: nat, y: nat, k: nat): byte
    requires x < w && y < h && k < size && |pass| == PassSize(w, h, size, PassOf(x, y))
  {
    var p := PassOf(x, y);
    PassCovers(w, h, x, y);
    var i, j := (x - XOrig(p)) / XSpc(p), (y - YOrig(p)) / YSpc(p);
    PlaceInBounds(PassWidth(w, p), PassHeight(h, p), size, i, j, k);
    pass[Place(PassWidth(w, p), size, i, j, k)]
  }

  /** Whether pixel (x, y) is in pass p, before column i of row j there. */
  predicate Visited(p: nat, i: nat, j: nat, x: nat, y: nat)
    requires p < 7
  {
    PassOf(x, y) == p
    && ((y - YOrig(p)) / YSpc(p) < j || ((y - YOrig(p)) / YSpc(p) == j && (x - XOrig(p)) / XSpc(p) < i))
  }

  ghost predicate Inside(final: seq<byte>, w: nat, h: nat, size: nat, x: nat, y: nat, k: nat) {
    x < w && y < h && k < size && |final| == Size(w, h, size) && Place(w, size, x, y, k) < |final|
  }

  /** The visited pixels of pass p have been copied; the others are as before. */
  ghost predicate ScatteredAt(before: seq<byte>, after: seq<byte>, w: nat, h: nat, size: nat, p: nat, pass: seq<byte>,
                              i: nat, j: nat, x: nat, y: nat, k: nat)
    requires p < 7 && |pass| == PassSize(w, h, size, p)
    requires Inside(before, w, h, size, x, y, k) && Inside(after, w, h, size, x, y, k)
  {
    after[Place(w, size, x, y, k)] ==
      if Visited(p, i, j, x, y) then PassByte(w, h, size, pass, x, y, k) else before[Place(w, size, x, y, k)]
  }

  ghost predicate Scattered(before: seq<byte>, after: seq<byte>, w: nat, h: nat, size: nat, p: nat, pass: seq<byte>,
                            i: nat, j: nat)
    requires p < 7 && |pass| == PassSize(w, h, size, p)
  {
    |before| == |after|
    && forall x: nat, y: nat, k: nat :: Inside(before, w, h, size, x, y, k) && Inside(after, w, h, size, x, y, k) ==>
         ScatteredAt(before, after, w, h, size, p, pass, i, j, x, y, k)
  }

  /** One pixel copied. */
  ghost predicate Copied(before: seq<byte>, after: seq<byte>, size: nat, to: nat, pass: seq<byte>, from: nat)
    requires from + size <= |pass|
  {
    |before| == |after|
    && forall t :: 0 <= t < |after| ==> after[t] == if to <= t < to + size then pass[from + (t - to)] else before[t]
  }

  lemma CopyVisits(first: seq<byte>, before: seq<byte>, after: seq<byte>, w: nat, h: nat, size: nat, p: nat,
                   pass: seq<byte>, i: nat, j: nat)
    requires p < 7 && |pass| == PassSize(w, h, size, p) && |first| == Size(w, h, size)
    requires i < PassWidth(w, p) && j < PassHeight(h, p) && 0 < size
    requires Scattered(first, before, w, h, size, p, pass, i, j)
    requires Place(PassWidth(w, p), size, i, j, 0) + size <= |pass|
    requires Copied(before, after, size, Place(w, size, Col(p, i), Row(p, j), 0), pass,
                    Place(PassWidth(w, p), size, i, j, 0))
    ensures Scattered(first, after, w, h, size, p, pass, i + 1, j)
  {
    forall x: nat, y: nat, k: nat | Inside(first, w, h, size, x, y, k) && Inside(after, w, h, size, x, y, k)
      ensures ScatteredAt(first, after, w, h, size, p, pass, i + 1, j, x, y, k)
    {
      assert Inside(before, w, h, size, x, y, k);
      assert ScatteredAt(first, before, w, h, size, p, pass, i, j, x, y, k);
      CopyVisitsAt(first, before, after, w, h, size, p, pass, i, j, Col(p, i), Row(p, j), x, y, k);
    }
  }

  lemma CopyVisitsAt(first: seq<byte>, before: seq<byte>, after: seq<byte>, w: nat, h: nat, size: nat, p: nat,
                     pass: seq<byte>, i: nat, j: nat, x': nat, y': nat, x: nat, y: nat, k: nat)
    requires p < 7 && |pass| == PassSize(w, h, size, p) && |first| == |before| == |after| == Size(w, h, size)
    requires i < PassWidth(w, p) && j < PassHeight(h, p) && x' == Col(p, i) && y' == Row(p, j)
    requires Inside(first, w, h, size, x, y, k) && Inside(before, w, h, size, x, y, k)
    requires Inside(after, w, h, size, x, y, k)
    requires ScatteredAt(first, before, w, h, size, p, pass, i, j, x, y, k)
    requires Place(PassWidth(w, p), size, i, j, 0) + size <= |pass|
    requires Copied(before, after, size, Place(w, size, x', y', 0), pass, Place(PassWidth(w, p), size, i, j, 0))
    ensures ScatteredAt(first, after, w, h, size, p, pass, i + 1, j, x, y, k)
  {
    VisitsNext(w, h, p, i, j, x, y);
    if x == x' && y == y' {
      CopyVisitsHere(first, after, w, h, size, p, pass, i, j, x, y, k, before);
    } else {
      PassInBounds(w, h, p, i, j);
      CopiedElsewhere(before, after, w, size, x', y', pass, Place(PassWidth(w, p), size, i, j, 0), x, y, k);
    }
  }

  lemma CopyVisitsHere(first: seq<byte>, after: seq<byte>, w: nat, h: nat, size: nat, p: nat, pass: seq<byte>, i: nat,
                       j: nat, x: nat, y: nat, k: nat, before: seq<byte>)
    requires p < 7 && |pass| == PassSize(w, h, size, p)
    requires x == Col(p, i) && y == Row(p, j) && Visited(p, i + 1, j, x, y)
    requires Inside(first, w, h, size, x, y, k) && Inside(after, w, h, size, x, y, k)
    requires Place(PassWidth(w, p), size, i, j, 0) + size <= |pass|
    requires Copied(before, after, size, Place(w, size, x, y, 0), pass, Place(PassWidth(w, p), size, i, j, 0))
    ensures ScatteredAt(first, after, w, h, size, p, pass, i + 1, j, x, y, k)
  {
    CopiedPixel(w, h, size, p, pass, i, j, x, y, k);
    CopiedHere(before, after, size, Place(w, size, x, y, 0), pass, Place(PassWidth(w, p), size, i, j, 0), k);
  }

  lemma CopiedHere(before: seq<byte>, after: seq<byte>, size: nat, to: nat, pass: seq<byte>, from: nat, k: nat)
    requires from + size <= |pass| && Copied(before, after, size, to, pass, from) && k < size && to + k < |after|
    ensures after[to + k] == pass[from + k]
  {
  }

  /** The copy of one pixel leaves the others alone. */
  lemma CopiedElsewhere(before: seq<byte>, after: seq<byte>, w: nat, size: nat, x': nat, y': nat, pass: seq<byte>,
                        from: nat, x: nat, y: nat, k: nat)
    requires from + size <= |pass| && Copied(before, after, size, Place(w, size, x', y', 0), pass, from)
    requires x < w && x' < w && k < size && (x != x' || y != y') && Place(w, size, x, y, k) < |before|
    ensures |before| == |after| && after[Place(w, size, x, y, k)] == before[Place(w, size, x, y, k)]
  {
    var t, to := Place(w, size, x, y, k), Place(w, size, x', y', 0);
    if to <= t < to + size {
      PlaceIsUnique(w, size, x, y, k, x', y', t - to);
      assert false;
    }
  }

  lemma CopiedPixel(w: nat, h: nat, size: nat, p: nat, pass: seq<byte>, i: nat, j: nat, x: nat, y: nat, k: nat)
    requires p < 7 && |pass| == PassSize(w, h, size, p) && x == Col(p, i) && y == Row(p, j)
    requires x < w && y < h && k < size && Place(PassWidth(w, p), size, i, j, 0) + size <= |pass|
    ensures PassOf(x, y) == p && PassByte(w, h, size, pass, x, y, k) == pass[Place(PassWidth(w, p), size, i, j, 0) + k]
  {
    PassUnique(p, i, j);
  }

  /** The pixel after those visited is the one at column i of row j of the pass. */
  lemma VisitsNext(w: nat, h: nat, p: nat, i: nat, j: nat, x: nat, y: nat)
    requires p < 7 && x < w && y < h
    ensures Visited(p, i + 1, j, x, y) <==> Visited(p, i, j, x, y) || (x == Col(p, i) && y == Row(p, j))
    ensures Visited(p, i, j, x, y) ==> !(x == Col(p, i) && y == Row(p, j))
  {
    PassUnique(p, i, j);
    PassCovers(w, h, x, y);
  }

  /** At the end of a row of the pass, the next row begins. */
  lemma RowVisited(first: seq<byte>, after: seq<byte>, w: nat, h: nat, size: nat, p: nat, pass: seq<byte>, j: nat)
    requires p < 7 && |pass| == PassSize(w, h, size, p)
    requires Scattered(first, after, w, h, size, p, pass, PassWidth(w, p), j)
    ensures Scattered(first, after, w, h, size, p, pass, 0, j + 1)
  {
    forall x: nat, y: nat, k: nat | Inside(first, w, h, size, x, y, k) && Inside(after, w, h, size, x, y, k)
      ensures ScatteredAt(first, after, w, h, size, p, pass, 0, j + 1, x, y, k)
    {
      assert ScatteredAt(first, after, w, h, size, p, pass, PassWidth(w, p), j, x, y, k);
      VisitsRow(w, h, p, j, x, y);
    }
  }

  lemma NothingVisited(first: seq<byte>, w: nat, h: nat, size: nat, p: nat, pass: seq<byte>)
    requires p < 7 && |pass| == PassSize(w, h, size, p)
    ensures Scattered(first, first, w, h, size, p, pass, 0, 0)
  {
    forall x: nat, y: nat, k: nat | Inside(first, w, h, size, x, y, k)
      ensures ScatteredAt(first, first, w, h, size, p, pass, 0, 0, x, y, k)
    {
      VisitsRow(w, h, p, 0, x, y);
    }
  }

  /** The end of a row is the beginning of the next, and nothing comes before the first. */
  lemma VisitsRow(w: nat, h: nat, p: nat, j: nat, x: nat, y: nat)
    requires p < 7 && x < w && y < h
    ensures Visited(p, PassWidth(w, p), j, x, y) == Visited(p, 0, j + 1, x, y) && !Visited(p, 0, 0, x, y)
    ensures PassOf(x, y) == p ==> Visited(p, 0, PassHeight(h, p), x, y)
  {
    PassCovers(w, h, x, y);
  }

  /** Copies one pass into its places. */
  method Scatter(final: array<byte>, w: nat, h: nat, size: nat, p: nat, out: array<byte>)
    requires p < 7 && 0 < size && final != out
    requires final.Length == Size(w, h, size) && out.Length == PassSize(w, h, size, p)
    modifies final
    ensures Scattered(old(final[..]), final[..], w, h, size, p, out[..], 0, PassHeight(h, p))
  {
    var pw, ph := PassWidth(w, p), PassHeight(h, p);
    ghost var first, pass := final[..], out[..];
    NothingVisited(first, w, h, size, p, pass);
    var j := 0;
    while j < ph
      invariant 0 <= j <= ph && out[..] == pass
      invariant Scattered(first, final[..], w, h, size, p, pass, 0, j)
    {
      var i := 0;
      while i < pw
        invariant 0 <= i <= pw && out[..] == pass
        invariant Scattered(first, final[..], w, h, size, p, pass, i, j)
      {
        ghost var before := final[..];
        CopyPixel(final, w, h, size, p, out, i, j);
        CopyVisits(first, before, final[..], w, h, size, p, pass, i, j);
        i := i + 1;
      }
      RowVisited(first, final[..], w, h, size, p, pass, j);
      j := j + 1;
    }
  }

  method CopyPixel(final: array<byte>, w: nat, h: nat, size: nat, p: nat, out: array<byte>, i: nat, j: nat)
    requires p < 7 && 0 < size && final != out && i < PassWidth(w, p) && j < PassHeight(h, p)
    requires final.Length == Size(w, h, size) && out.Length == PassSize(w, h, size, p)
    modifies final
    ensures Place(PassWidth(w, p), size, i, j, 0) + size <= out.Length
    ensures Copied(old(final[..]), final[..], size, Place(w, size, Col(p, i), Row(p, j), 0), out[..],
                   Place(PassWidth(w, p), size, i, j, 0))
  {
    CopyInBounds(w, h, size, p, i, j);
    CopyBytes(final, FinalOffset(w, size, Col(p, i), Row(p, j)), out, PassOffset(PassWidth(w, p), size, i, j), size);
  }

  method CopyBytes(final: array<byte>, to: nat, out: array<byte>, from: nat, size: nat)
    requires final != out && to + size <= final.Length && from + size <= out.Length
    modifies final
    ensures Copied(old(final[..]), final[..], size, to, out[..], from)
  {
    forall k | 0 <= k < size { final[to + k] := out[from + k]; }
    forall t | 0 <= t < final.Length
      ensures final[t] == if to <= t < to + size then out[from + (t - to)] else old(final[t])
    {
      if to <= t < to + size {
        assert final[to + (t - to)] == out[from + (t - to)];
      }
    }
  }

  function FinalOffset(w: nat, size: nat, x: nat, y: nat): (at: nat)
    ensures at == Place(w, size, x, y, 0)
  {
    PlaceIsProduct(w, size, x, y, 0);
    y * w * size + x * size
  }

  function PassOffset(pw: nat, size: nat, i: nat, j: nat): (at: nat)
    ensures at == Place(pw, size, i, j, 0)
  {
    PlaceIsProduct(pw, size, i, j, 0);
    Distribute(j * pw, i, size);
    (j * pw + i) * size
  }

  lemma CopyInBounds(w: nat, h: nat, size: nat, p: nat, i: nat, j: nat)
    requires p < 7 && 0 < size && i < PassWidth(w, p) && j < PassHeight(h, p)
    ensures Place(w, size, Col(p, i), Row(p, j), 0) + size <= Size(w, h, size)
    ensures Place(PassWidth(w, p), size, i, j, 0) + size <= PassSize(w, h, size, p)
  {
    PassInBounds(w, h, p, i, j);
    PlaceInBounds(w, h, size, Col(p, i), Row(p, j), size - 1);
    PlaceInBounds(PassWidth(w, p), PassHeight(h, p), size, i, j, size - 1);
  }

  // ----- All passes -----

  predicate ArePasses(passes: seq<seq<byte>>, w: nat, h: nat, size: nat, m: nat) {
    m <= 7 && |passes| == m && forall p :: 0 <= p < m ==> |passes[p]| == PassSize(w, h, size, p)
  }

  ghost predicate WovenAt(final: seq<byte>, passes: seq<seq<byte>>, w: nat, h: nat, size: nat, m: nat, x: nat, y: nat,
                          k: nat)
    requires ArePasses(passes, w, h, size, m) && Inside(final, w, h, size, x, y, k)
  {
    PassOf(x, y) < m ==> final[Place(w, size, x, y, k)] == PassByte(w, h, size, passes[PassOf(x, y)], x, y, k)
  }

  /** Every pixel of the first m passes is in its place. */
  ghost predicate Woven(final: seq<byte>, passes: seq<seq<byte>>, w: nat, h: nat, size: nat, m: nat)
    requires ArePasses(passes, w, h, size, m)
  {
    |final| == Size(w, h, size)
    && forall x: nat, y: nat, k: nat :: Inside(final, w, h, size, x, y, k) ==>
      WovenAt(final, passes, w, h, size, m, x, y, k)
  }

  /** Scattering the next pass leaves the earlier ones where they are. */
  lemma ScatterWeaves(before: seq<byte>, after: seq<byte>, passes: seq<seq<byte>>, pass: seq<byte>, w: nat, h: nat,
                      size: nat, m: nat)
    requires m < 7 && ArePasses(passes, w, h, size, m) && |pass| == PassSize(w, h, size, m)
    requires Woven(before, passes, w, h, size, m)
    requires Scattered(before, after, w, h, size, m, pass, 0, PassHeight(h, m))
    ensures ArePasses(passes + [pass], w, h, size, m + 1) && Woven(after, passes + [pass], w, h, size, m + 1)
  {
    var all := passes + [pass];
    forall x: nat, y: nat, k: nat | Inside(after, w, h, size, x, y, k)
      ensures WovenAt(after, all, w, h, size, m + 1, x, y, k)
    {
      assert Inside(before, w, h, size, x, y, k);
      assert ScatteredAt(before, after, w, h, size, m, pass, 0, PassHeight(h, m), x, y, k);
      assert WovenAt(before, passes, w, h, size, m, x, y, k);
      VisitsRow(w, h, m, 0, x, y);
    }
  }

  /** The passes hold the pixels that interlacing takes from an image. */
  ghost predicate TakenFrom(image: seq<byte>, passes: seq<seq<byte>>, w: nat, h: nat, size: nat)
    requires ArePasses(passes, w, h, size, 7)
  {
    |image| == Size(w, h, size)
    && forall x: nat, y: nat, k: nat :: Inside(image, w, h, size, x, y, k) ==>
         image[Place(w, size, x, y, k)] == PassByte(w, h, size, passes[PassOf(x, y)], x, y, k)
  }

  /** Scattering all passes of an image gives the image back. */
  lemma InterlaceRoundTrip(image: seq<byte>, final: seq<byte>, passes: seq<seq<byte>>, w: nat, h: nat, size: nat)
    requires ArePasses(passes, w, h, size, 7) && TakenFrom(image, passes, w, h, size)
    requires Woven(final, passes, w, h, size, 7)
    ensures final == image
  {
    forall t | 0 <= t < |final| ensures final[t] == image[t] {
      var cell, k := SpanLocate(size, Span(w, h), t);
      var y, x := SpanLocate(w, h, cell);
      assert t == Place(w, size, x, y, k);
      assert Inside(final, w, h, size, x, y, k) && Inside(image, w, h, size, x, y, k);
      assert WovenAt(final, passes, w, h, size, 7, x, y, k);
    }
  }
}
