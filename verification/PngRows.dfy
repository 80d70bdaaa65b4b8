/** Whole images of filtered rows: the writer's choice of a filter for every row. */
module PngRows {
  import opened Bits
  import opened Spans
  import opened PngFilter

  /** The size of k filtered rows: a filter byte and w bytes each. */
  function Size(w: nat, k: nat): nat {
    Span(w + 1, k)
  }

  predicate AreFilters(fts: seq<nat>) {
    forall i :: 0 <= i < |fts| ==> fts[i] < 5
  }

  // ----- The writer -----

  predicate AllWide(rows: seq<seq<byte>>, w: nat) {
    forall i :: 0 <= i < |rows| ==> |rows[i]| == w
  }

  /** Lines one after the other, each behind the number of its filter. */
  function Framed(fts: seq<nat>, lines: seq<seq<byte>>, w: nat): (data: seq<byte>)
    requires |fts| == |lines| && AreFilters(fts) && AllWide(lines, w)
    ensures |data| == Size(w, |fts|)
  {
    if fts == [] then [] else
      var k := |fts| - 1;
      Framed(fts[..k], lines[..k], w) + [fts[k]] + lines[k]
  }

  /** The first rows of an image, each filtered in its own way. */
  function Lines(image: Image, fts: seq<nat>, n: nat): (lines: seq<seq<byte>>)
    requires image.Valid() && 0 < n && |fts| <= image.height
    ensures |lines| == |fts| && AllWide(lines, image.w)
  {
    if fts == [] then [] else
      var k := |fts| - 1;
      Lines(image, fts[..k], n) + [LineOf(image, k, n, fts[k])]
  }

  function Encoded(image: Image, fts: seq<nat>, n: nat): (data: seq<byte>)
    requires image.Valid() && 0 < n && |fts| <= image.height && AreFilters(fts)
    ensures |data| == Size(image.w, |fts|)
  {
    Framed(fts, Lines(image, fts, n), image.w)
  }

  function Signed(b: byte): int {
    if b < 128 then b else b - 256
  }

  /** The writer's measure of how compressible a line is. */
  function Estimate(line: seq<byte>): nat {
    if line == [] then 0 else Estimate(line[..|line| - 1]) + Abs(Signed(line[|line| - 1]))
  }

  /** Every byte counts with its distance from zero modulo 256. */
  lemma EstimateIs(line: seq<byte>, b: byte)
    ensures Estimate([]) == 0
    ensures Estimate(line + [b]) == Estimate(line) + if b < 128 then b else 256 - b
  {
    assert (line + [b])[..|line|] == line;
  }

  method EstimateLine(line: array<byte>) returns (est: nat)
    ensures est == Estimate(line[..])
  {
    est := 0;
    for i := 0 to line.Length
      invariant est == Estimate(line[..i])
    {
      assert line[..i + 1][..i] == line[..i];
      est := est + Abs(Signed(line[i]));
    }
    assert line[..] == line[..line.Length];
  }

  lemma {:induction false} EstimateBound(line: seq<byte>)
    ensures Estimate(line) <= 128 * |line|
  {
    if line != [] {
      EstimateBound(line[..|line| - 1]);
    }
  }

  function LineOf(image: Image, y: nat, n: nat, ft: nat): (line: seq<byte>)
    requires image.Valid() && y < image.height && 0 < n
    ensures |line| == image.w
  {
    FilterLine(ft, image.Row(y), image.Above(y), n)
  }

  method TryFilter(image: Image, y: nat, n: nat, ft: nat, line: array<byte>) returns (est: nat)
    requires image.Valid() && y < image.height && 0 < n <= image.w && ft < 5
    requires line.Length == image.w
    modifies line
    ensures line[..] == LineOf(image, y, n, ft)
    ensures est == Estimate(LineOf(image, y, n, ft)) <= 128 * image.w
  {
    EncodeLine(image, y, n, ft, line);
    est := EstimateLine(line);
    EstimateBound(line[..]);
  }

  /** The forced filter, or the first of those with the smallest estimate; the line ends up filtered by it. */
  method ChooseFilter(image: Image, y: nat, n: nat, force: int, line: array<byte>) returns (ft: nat)
    requires image.Valid() && y < image.height && 0 < n <= image.w && force < 5
    requires line.Length == image.w
    modifies line
    ensures ft < 5 && line[..] == LineOf(image, y, n, ft)
    ensures force > -1 ==> ft == force
    ensures force <= -1 && 128 * image.w < 0x7fffffff ==>
      forall g :: 0 <= g < 5 ==> Estimate(LineOf(image, y, n, ft)) <= Estimate(LineOf(image, y, n, g))
    ensures force <= -1 && 128 * image.w < 0x7fffffff ==>
      forall g :: 0 <= g < ft ==> Estimate(LineOf(image, y, n, ft)) < Estimate(LineOf(image, y, n, g))
  {
    if force > -1 {
      ft := force;
      EncodeLine(image, y, n, ft, line);
      return;
    }
    var best, bestVal := 0, 0x7fffffff;
    ft := 0;
    while ft < 5
      invariant 0 <= ft <= 5 && best < 5
      invariant ft > 0 && 128 * image.w < 0x7fffffff ==> bestVal == Estimate(LineOf(image, y, n, best))
      invariant forall g :: 0 <= g < ft ==> bestVal <= Estimate(LineOf(image, y, n, g))
      invariant forall g :: 0 <= g < best ==> bestVal < Estimate(LineOf(image, y, n, g))
      invariant ft == 0 ==> best == 0 && bestVal == 0x7fffffff
    {
      var est := TryFilter(image, y, n, ft, line);
      if est < bestVal {
        best, bestVal := ft, est;
      }
      ft := ft + 1;
    }
    if ft != best {
      EncodeLine(image, y, n, best, line);
      ft := best;
    }
  }

  predicate Forced(fts: seq<nat>, force: int) {
    force > -1 ==> forall i :: 0 <= i < |fts| ==> fts[i] == force
  }

  /** Filters every row into one buffer. */
  method FilterImage(image: Image, n: nat, forceFilter: int) returns (filt: array<byte>, ghost fts: seq<nat>)
    requires image.Valid() && 0 < n <= image.w
    ensures |fts| == image.height && AreFilters(fts)
    ensures forceFilter < 5 ==> Forced(fts, forceFilter)
    ensures filt[..] == Encoded(image, fts, n)
    ensures fresh(filt)
  {
    var force := if forceFilter >= 5 then -1 else forceFilter;
    filt := AllocateRows(image.w, image.height);
    var line := new byte[image.w];
    fts := [];
    var j, p := 0, 0;
    while j < image.height
      invariant 0 <= j <= image.height && p == Size(image.w, j) <= filt.Length
      invariant |fts| == j && AreFilters(fts) && Forced(fts, force)
      invariant filt.Length == Size(image.w, image.height) && fresh(filt) && fresh(line)
      invariant filt[..p] == Encoded(image, fts, n)
    {
      ghost var ft;
      ft, p := FilterRow(image, n, force, j, p, filt, line, fts);
      fts := fts + [ft];
      j := j + 1;
    }
    assert filt[..] == filt[..p];
  }

  method AllocateRows(w: nat, height: nat) returns (filt: array<byte>)
    ensures fresh(filt) && filt.Length == Size(w, height)
  {
    SpanIsProduct(w + 1, height);
    filt := new byte[(w + 1) * height];
  }

  method FilterRow(image: Image, n: nat, force: int, j: nat, p: nat, filt: array<byte>, line: array<byte>,
                   ghost fts: seq<nat>)
    returns (ft: nat, next: nat)
    requires image.Valid() && 0 < n <= image.w && force < 5 && j < image.height
    requires filt.Length == Size(image.w, image.height) && line.Length == image.w && filt != line
    requires |fts| == j && AreFilters(fts)
    requires p == Size(image.w, j) <= filt.Length && filt[..p] == Encoded(image, fts, n)
    modifies filt, line
    ensures ft < 5 && (force > -1 ==> ft == force)
    ensures next == Size(image.w, j + 1) <= filt.Length
    ensures filt[..next] == Encoded(image, fts + [ft], n)
  {
    ft := ChooseFilter(image, j, n, force, line);
    next := StoreRow(image, n, j, p, filt, line, fts, ft);
  }

  method StoreRow(image: Image, n: nat, j: nat, p: nat, filt: array<byte>, line: array<byte>, ghost fts: seq<nat>,
                  ft: nat)
    returns (next: nat)
    requires image.Valid() && 0 < n && j < image.height && ft < 5
    requires filt.Length == Size(image.w, image.height) && filt != line && line[..] == LineOf(image, j, n, ft)
    requires |fts| == j && AreFilters(fts)
    requires p == Size(image.w, j) <= filt.Length && filt[..p] == Encoded(image, fts, n)
    modifies filt
    ensures next == Size(image.w, j + 1) <= filt.Length
    ensures filt[..next] == Encoded(image, fts + [ft], n)
  {
    SpanMonotone(image.w + 1, j, image.height);
    assert line.Length == |line[..]| == image.w;
    StoreLine(filt, p, ft, line);
    next := p + 1 + image.w;
    EncodedSnoc(image, fts, ft, n);
  }

  lemma EncodedSnoc(image: Image, fts: seq<nat>, ft: nat, n: nat)
    requires image.Valid() && 0 < n && |fts| < image.height && AreFilters(fts) && ft < 5
    ensures AreFilters(fts + [ft])
    ensures Encoded(image, fts + [ft], n) == Encoded(image, fts, n) + [ft] + LineOf(image, |fts|, n, ft)
  {
    assert (fts + [ft])[..|fts|] == fts;
    FramedSnoc(fts, Lines(image, fts, n), ft, LineOf(image, |fts|, n, ft), image.w);
  }

  lemma FramedSnoc(fts: seq<nat>, lines: seq<seq<byte>>, ft: nat, line: seq<byte>, w: nat)
    requires |fts| == |lines| && AreFilters(fts) && AllWide(lines, w) && ft < 5 && |line| == w
    ensures Framed(fts + [ft], lines + [line], w) == Framed(fts, lines, w) + [ft] + line
  {
    assert (fts + [ft])[..|fts|] == fts && (lines + [line])[..|fts|] == lines;
  }

  method StoreLine(filt: array<byte>, p: nat, ft: byte, line: array<byte>)
    requires p + 1 + line.Length <= filt.Length && filt != line
    modifies filt
    ensures filt[..p + 1 + line.Length] == old(filt[..p]) + [ft] + line[..]
  {
    filt[p] := ft;
    forall i | 0 <= i < line.Length { filt[p + 1 + i] := line[i]; }
  }
}
