/** PNG row filters. The writer's line encoder and the reader's reconstruction, each with special
cases for the first pixel and the first row, against the definition of clause 9 of the PNG
specification, where pixels outside the image count as zero. */
module PngFilter {
  import opened Bits

  function Abs(v: int): nat {
    if v < 0 then -v else v
  }

  /** Whichever of the three is nearest to a + b - c; of those that are equally near, a comes before b and b
  before c. */
  function Paeth(a: int, b: int, c: int): (r: int)
    ensures r == a || r == b || r == c
    ensures Abs(a + b - c - r) <= Abs(b - c) && Abs(a + b - c - r) <= Abs(a - c)
    ensures Abs(a + b - c - r) <= Abs(a + b - c - c)
    ensures Abs(a + b - c - r) == Abs(b - c) ==> r == a
    ensures Abs(a + b - c - r) == Abs(a - c) < Abs(b - c) ==> r == b
  {
    var p := a + b - c;
    var pa, pb, pc := Abs(p - a), Abs(p - b), Abs(p - c);
    if pa <= pb && pa <= pc then a
    else if pb <= pc then b
    else c
  }

  // ----- Definition -----

  /** What filter ft predicts from the bytes to the left, above, and above left. */
  function Predict(ft: nat, a: byte, b: byte, c: byte): (p: byte) {
    if ft == 1 then a
    else if ft == 2 then b
    else if ft == 3 then (a as int + b) / 2
    else if ft == 4 then Paeth(a, b, c)
    else 0
  }

  /** The prediction for byte i of a row with n bytes to a pixel; prev is [] above the first row. */
  function PredictAt(ft: nat, row: seq<byte>, prev: seq<byte>, n: nat, i: nat): byte
    requires 0 < n && i <= |row|
  {
    var a := if i < n then 0 else row[i - n];
    var b := if i < |prev| then prev[i] else 0;
    var c := if i < n || i - n >= |prev| then 0 else prev[i - n];
    Predict(ft, a, b, c)
  }

  /** The first k bytes of a row, filtered. */
  function Filter(ft: nat, row: seq<byte>, prev: seq<byte>, n: nat, k: nat): (line: seq<byte>)
    requires 0 < n && k <= |row|
    ensures |line| == k
  {
    if k == 0 then [] else
      Filter(ft, row, prev, n, k - 1) + [UChar(row[k - 1] as int - PredictAt(ft, row, prev, n, k - 1))]
  }

  function FilterLine(ft: nat, row: seq<byte>, prev: seq<byte>, n: nat): (line: seq<byte>)
    requires 0 < n
    ensures |line| == |row|
  {
    Filter(ft, row, prev, n, |row|)
  }

  /** The first k bytes of a row, each rebuilt from those before it. */
  function Unfilter(ft: nat, line: seq<byte>, prev: seq<byte>, n: nat, k: nat): (row: seq<byte>)
    requires 0 < n && k <= |line|
    ensures |row| == k
  {
    if k == 0 then [] else
      var row := Unfilter(ft, line, prev, n, k - 1);
      row + [UChar(line[k - 1] as int + PredictAt(ft, row, prev, n, k - 1))]
  }

  /** Reconstruction inverts the filter, whatever the filter type. */
  lemma {:induction false} UnfilterInverts(ft: nat, row: seq<byte>, prev: seq<byte>, n: nat, line: seq<byte>, k: nat)
    requires 0 < n && k <= |row| && k <= |line|
    requires line[..k] == Filter(ft, row, prev, n, k)
    ensures Unfilter(ft, line, prev, n, k) == row[..k]
  {
    if k > 0 {
      assert line[..k - 1] == line[..k][..k - 1];
      UnfilterInverts(ft, row, prev, n, line, k - 1);
      var p := PredictAt(ft, row, prev, n, k - 1);
      SamePrediction(ft, row, prev, n, k - 1);
      assert line[k - 1] == line[..k][k - 1];
      ByteWraps(row[k - 1], p);
      assert row[..k] == row[..k - 1] + [row[k - 1]];
    }
  }

  lemma SamePrediction(ft: nat, row: seq<byte>, prev: seq<byte>, n: nat, k: nat)
    requires 0 < n && k <= |row|
    ensures PredictAt(ft, row[..k], prev, n, k) == PredictAt(ft, row, prev, n, k)
  {
  }

  lemma LineUnfilters(ft: nat, row: seq<byte>, prev: seq<byte>, n: nat)
    requires 0 < n
    ensures Unfilter(ft, FilterLine(ft, row, prev, n), prev, n, |row|) == row
  {
    var line := FilterLine(ft, row, prev, n);
    assert line[..|row|] == line && row[..|row|] == row;
    UnfilterInverts(ft, row, prev, n, line, |row|);
  }

  // ----- Each byte -----

  /** What a filter takes from byte i: nothing, the byte to the left, the one above, their average rounded down, or the
  nearest of the three. */
  predicate IsPrediction(ft: nat, row: seq<byte>, prev: seq<byte>, n: nat, i: nat, p: nat)
    requires 0 < n && i <= |row|
  {
    var left: nat := if i < n then 0 else row[i - n];
    var up: nat := if i < |prev| then prev[i] else 0;
    var upLeft: nat := if n <= i && i - n < |prev| then prev[i - n] else 0;
    && (ft == 0 ==> p == 0)
    && (ft == 1 ==> p == left)
    && (ft == 2 ==> p == up)
    && (ft == 3 ==> 2 * p <= left + up <= 2 * p + 1)
    && (ft == 4 ==> p == Paeth(left, up, upLeft))
  }

  lemma PredictionIs(ft: nat, row: seq<byte>, prev: seq<byte>, n: nat, i: nat, p: nat)
    requires ft < 5 && 0 < n && i <= |row|
    ensures IsPrediction(ft, row, prev, n, i, p) <==> p == PredictAt(ft, row, prev, n, i)
  {
  }

  /** Byte i of a filtered row is the difference from its prediction, modulo 256. */
  lemma {:induction false} FilteredByte(ft: nat, row: seq<byte>, prev: seq<byte>, n: nat, k: nat, i: nat, p: nat)
    requires ft < 5 && 0 < n && i < k <= |row| && IsPrediction(ft, row, prev, n, i, p)
    ensures Filter(ft, row, prev, n, k)[i] == (row[i] as int - p) % 256
  {
    if i + 1 < k {
      FilteredByte(ft, row, prev, n, k - 1, i, p);
    } else {
      PredictionIs(ft, row, prev, n, i, p);
    }
  }

  /** Every byte of a row is its filtered byte plus its prediction. */
  lemma {:induction false} UnfilterAt(ft: nat, line: seq<byte>, prev: seq<byte>, n: nat, k: nat, i: nat)
    requires 0 < n && i < k <= |line|
    ensures Unfilter(ft, line, prev, n, k)[i]
         == UChar(line[i] as int + PredictAt(ft, Unfilter(ft, line, prev, n, k), prev, n, i))
  {
    var row := Unfilter(ft, line, prev, n, k - 1);
    if i < k - 1 {
      UnfilterAt(ft, line, prev, n, k - 1, i);
    }
    SamePrediction(ft, Unfilter(ft, line, prev, n, k), prev, n, i);
    SamePrediction(ft, row, prev, n, i);
    assert Unfilter(ft, line, prev, n, k)[..i] == row[..i];
  }

  predicate IsSum(line: seq<byte>, row: seq<byte>, i: nat, p: nat) {
    i < |row| <= |line| && row[i] == (line[i] as int + p) % 256
  }

  lemma UnfilterSum(ft: nat, line: seq<byte>, prev: seq<byte>, n: nat, k: nat, i: nat)
    requires 0 < n && i < k <= |line|
    ensures IsSum(line, Unfilter(ft, line, prev, n, k), i, PredictAt(ft, Unfilter(ft, line, prev, n, k), prev, n, i))
  {
    UnfilterAt(ft, line, prev, n, k, i);
  }

  /** Byte i of a rebuilt row is the sum with its prediction, modulo 256. */
  lemma RebuiltByte(ft: nat, line: seq<byte>, prev: seq<byte>, n: nat, row: seq<byte>, i: nat, p: nat)
    requires ft < 5 && 0 < n && i < |line| && row == Unfilter(ft, line, prev, n, |line|)
    requires IsPrediction(ft, row, prev, n, i, p)
    ensures IsSum(line, row, i, p)
  {
    UnfilterSum(ft, line, prev, n, |line|, i);
    PredictionIs(ft, row, prev, n, i, p);
  }

  lemma ByteWraps(x: byte, p: byte)
    ensures UChar(UChar(x as int - p) as int + p) == x
  {
  }

  // ----- The writer -----

  /** The image in memory: row y of w bytes begins y strides after the origin, where the stride may be
  negative; the rows are written bottom up when flipped. */
  datatype Image = Image(pixels: seq<byte>, origin: nat, stride: int, w: nat, height: nat, flip: bool) {
    /** Every row lies in the memory. */
    predicate Valid() {
      forall y :: 0 <= y < height ==> Inside(y)
    }

    predicate Inside(y: nat)
      requires y < height
    {
      0 <= Base(y) && Base(y) + w <= |pixels|
    }

    /** Where the row written as number y begins. */
    function Base(y: nat): int
      requires y < height
    {
      origin + stride * (if flip then height - 1 - y else y)
    }

    /** Where the row above would start. */
    function Up(y: nat): int
      requires y < height
    {
      var signedStride := if flip then -stride else stride;
      Base(y) - signedStride
    }

    lemma InBounds(y: nat)
      requires Valid() && y < height
      ensures 0 <= Base(y) && Base(y) + w <= |pixels|
    {
      assert Inside(y);
    }

    function Row(y: nat): (row: seq<byte>)
      requires Valid() && y < height
      ensures |row| == w
    {
      InBounds(y);
      pixels[Base(y)..Base(y) + w]
    }

    function Above(y: nat): seq<byte>
      requires Valid() && y < height
    {
      if y == 0 then [] else Row(y - 1)
    }
  }

  /** Writing bottom up is writing with the stride negated from the last row on. */
  lemma FlipNegatesStride(image: Image, y: nat)
    requires image.Valid() && image.flip && y < image.height
    ensures var last := image.origin + image.stride * (image.height - 1);
            && last >= 0
            && var other := Image(image.pixels, last, -image.stride, image.w, image.height, false);
               other.Valid() && other.Row(y) == image.Row(y)
  {
    image.InBounds(0);
    var last := image.origin + image.stride * (image.height - 1);
    var other := Image(image.pixels, last, -image.stride, image.w, image.height, false);
    forall r | 0 <= r < image.height ensures other.Inside(r) && other.Base(r) == image.Base(r) {
      image.InBounds(r);
      Negated(image.stride, image.height - 1, r);
    }
  }

  lemma Negated(a: int, b: int, c: int)
    ensures a * b + -a * c == a * (b - c)
  {
  }

  const MAPPING: seq<nat> := [0, 1, 2, 3, 4]
  const FIRST_MAP: seq<nat> := [0, 1, 0, 5, 6]

  /** The writer's special cases for the first pixel of a row; kinds 5 and 6 are for the first row. */
  function EncodeFirst(kind: nat, z: byte, up: byte): byte {
    if kind == 2 then UChar(z as int - up)
    else if kind == 3 then UChar(z as int - up / 2)
    else if kind == 4 then UChar(z as int - Paeth(0, up, 0))
    else z
  }

  function EncodeNext(kind: nat, z: byte, left: byte, up: byte, upLeft: byte): byte {
    if kind == 1 then UChar(z as int - left)
    else if kind == 2 then UChar(z as int - up)
    else if kind == 3 then UChar(z as int - (left as int + up) / 2)
    else if kind == 4 then UChar(z as int - Paeth(left, up, upLeft))
    else if kind == 5 then UChar(z as int - left / 2)
    else if kind == 6 then UChar(z as int - Paeth(left, 0, 0))
    else z
  }

  function Kind(filterType: nat, first: bool): nat
    requires filterType < 5
  {
    if first then FIRST_MAP[filterType] else MAPPING[filterType]
  }

  lemma KindIs(ft: nat)
    requires ft < 5
    ensures Kind(ft, false) == ft
    ensures Kind(ft, true) == if ft == 2 then 0 else if ft >= 3 then ft + 2 else ft
  {
  }

  /** Predicting from one side only. */
  lemma PaethEdges(v: byte)
    ensures Paeth(0, v, 0) == v && Paeth(v, 0, 0) == v
  {
  }

  /** The substitutes for the first pixel and the first row are the filters with zeros outside. */
  lemma EncodeFirstIs(ft: nat, first: bool, z: byte, up: byte)
    requires ft < 5
    ensures EncodeFirst(Kind(ft, first), z, up) == UChar(z as int - Predict(ft, 0, if first then 0 else up, 0))
  {
    KindIs(ft);
    PaethEdges(up);
    PaethEdges(0);
  }

  lemma EncodeNextIs(ft: nat, first: bool, z: byte, left: byte, up: byte, upLeft: byte)
    requires ft < 5
    ensures EncodeNext(Kind(ft, first), z, left, up, upLeft)
         == UChar(z as int - Predict(ft, left, if first then 0 else up, if first then 0 else upLeft))
  {
    KindIs(ft);
  }

  /** The line encoder, which reads memory relative to the current byte. */
  method EncodeLine(image: Image, y: nat, n: nat, filterType: nat, line: array<byte>)
    requires image.Valid() && y < image.height && 0 < n <= image.w && filterType < 5
    requires line.Length == image.w
    modifies line
    ensures line[..] == FilterLine(filterType, image.Row(y), image.Above(y), n)
  {
    var kind := Kind(filterType, y == 0);
    image.InBounds(y);
    var z, up := image.Base(y), image.Up(y);
    AboveAddress(image, y);
    if kind == 0 {
      EncodeCopy(image, y, n, filterType, z, line);
      return;
    }
    EncodeFirstPixel(image, y, n, filterType, kind, z, up, line);
    var i := n;
    while i < image.w
      invariant n <= i <= image.w
      invariant line[..i] == Filter(filterType, image.Row(y), image.Above(y), n, i)
    {
      EncodeByte(image, y, n, filterType, kind, z, up, i, line);
      i := i + 1;
    }
    assert line[..] == line[..i];
  }

  method EncodeCopy(image: Image, y: nat, n: nat, filterType: nat, z: nat, line: array<byte>)
    requires image.Valid() && y < image.height && 0 < n <= image.w && filterType < 5
    requires line.Length == image.w && 0 == Kind(filterType, y == 0) && z == image.Base(y)
    modifies line
    ensures line[..] == FilterLine(filterType, image.Row(y), image.Above(y), n)
  {
    image.InBounds(y);
    ghost var row := image.Row(y);
    EncodeNone(filterType, row, image.Above(y), n, |row|);
    forall i | 0 <= i < image.w { line[i] := image.pixels[z + i]; }
    assert line[..] == row == row[..|row|];
  }

  method EncodeFirstPixel(image: Image, y: nat, n: nat, filterType: nat, kind: nat, z: nat, up: int, line: array<byte>)
    requires image.Valid() && y < image.height && 0 < n <= image.w && filterType < 5
    requires line.Length == image.w && kind == Kind(filterType, y == 0) && z == image.Base(y)
    requires y != 0 ==> 0 <= up <= |image.pixels| - image.w && image.Above(y) == image.pixels[up..up + image.w]
    modifies line
    ensures line[..n] == Filter(filterType, image.Row(y), image.Above(y), n, n)
  {
    image.InBounds(y);
    ghost var row, above := image.Row(y), image.Above(y);
    var i := 0;
    while i < n
      invariant 0 <= i <= n
      invariant line[..i] == Filter(filterType, row, above, n, i)
    {
      var b := if y != 0 then image.pixels[up + i] else 0;
      assert row[i] == image.pixels[z + i];
      StepFirst(filterType, row, above, n, i);
      line[i] := EncodeFirst(kind, image.pixels[z + i], b);
      assert line[..i + 1] == line[..i] + [line[i]];
      i := i + 1;
    }
  }

  method EncodeByte(image: Image, y: nat, n: nat, filterType: nat, kind: nat, z: nat, up: int, i: nat,
                    line: array<byte>)
    requires image.Valid() && y < image.height && 0 < n <= i < image.w && filterType < 5
    requires line.Length == image.w && kind == Kind(filterType, y == 0) && z == image.Base(y)
    requires y != 0 ==> 0 <= up <= |image.pixels| - image.w && image.Above(y) == image.pixels[up..up + image.w]
    requires line[..i] == Filter(filterType, image.Row(y), image.Above(y), n, i)
    modifies line
    ensures line[..i + 1] == Filter(filterType, image.Row(y), image.Above(y), n, i + 1)
  {
    image.InBounds(y);
    var b := if y != 0 then image.pixels[up + i] else 0;
    var c := if y != 0 then image.pixels[up + i - n] else 0;
    NextByte(image, y, n, filterType, kind, z, up, i, b, c, line[..i]);
    line[i] := EncodeNext(kind, image.pixels[z + i], image.pixels[z + i - n], b, c);
    assert line[..i + 1] == line[..i] + [line[i]];
  }

  lemma NextByte(image: Image, y: nat, n: nat, ft: nat, kind: nat, z: nat, up: int, i: nat, b: byte, c: byte,
                 front: seq<byte>)
    requires image.Valid() && y < image.height && 0 < n <= i < image.w && ft < 5 && kind == Kind(ft, y == 0)
    requires z == image.Base(y)
    requires y != 0 ==> 0 <= up <= |image.pixels| - image.w && image.Above(y) == image.pixels[up..up + image.w]
    requires z + image.w <= |image.pixels| && front == Filter(ft, image.Row(y), image.Above(y), n, i)
    requires b == (if y != 0 then image.pixels[up + i] else 0) && c == if y != 0 then image.pixels[up + i - n] else 0
    ensures front + [EncodeNext(kind, image.pixels[z + i], image.pixels[z + i - n], b, c)]
         == Filter(ft, image.Row(y), image.Above(y), n, i + 1)
  {
    var row, above := image.Row(y), image.Above(y);
    assert row[i] == image.pixels[z + i] && row[i - n] == image.pixels[z + i - n];
    assert y != 0 ==> above[i] == b && above[i - n] == c;
    StepNext(ft, row, above, n, i);
  }

  lemma StepFirst(ft: nat, row: seq<byte>, above: seq<byte>, n: nat, i: nat)
    requires ft < 5 && 0 < n && i < n && i < |row| && (above == [] || |above| == |row|)
    ensures Filter(ft, row, above, n, i + 1) == Filter(ft, row, above, n, i)
              + [EncodeFirst(Kind(ft, above == []), row[i], if above == [] then 0 else above[i])]
  {
    var up := if above == [] then 0 else above[i];
    assert PredictAt(ft, row, above, n, i) == Predict(ft, 0, up, 0);
    EncodeFirstIs(ft, above == [], row[i], up);
  }

  lemma StepNext(ft: nat, row: seq<byte>, above: seq<byte>, n: nat, i: nat)
    requires ft < 5 && 0 < n <= i < |row| && (above == [] || |above| == |row|)
    ensures Filter(ft, row, above, n, i + 1) == Filter(ft, row, above, n, i)
              + [EncodeNext(Kind(ft, above == []), row[i], row[i - n],
                            if above == [] then 0 else above[i], if above == [] then 0 else above[i - n])]
  {
    var up, upLeft := if above == [] then 0 else above[i], if above == [] then 0 else above[i - n];
    assert PredictAt(ft, row, above, n, i) == Predict(ft, row[i - n], up, upLeft);
    EncodeNextIs(ft, above == [], row[i], row[i - n], up, upLeft);
  }

  lemma {:induction false} EncodeNone(ft: nat, row: seq<byte>, above: seq<byte>, n: nat, k: nat)
    requires ft < 5 && 0 < n && Kind(ft, above == []) == 0 && k <= |row|
    ensures Filter(ft, row, above, n, k) == row[..k]
  {
    if k > 0 {
      EncodeNone(ft, row, above, n, k - 1);
      KindIs(ft);
      assert PredictAt(ft, row, above, n, k - 1) == 0;
      assert row[..k] == row[..k - 1] + [row[k - 1]];
    }
  }

  /** One stride back in writing order is the row above. */
  lemma AboveAddress(image: Image, y: nat)
    requires image.Valid() && y < image.height
    ensures y != 0 ==>
      var up := image.Up(y);
      up == image.Base(y - 1) && 0 <= up && up + image.w <= |image.pixels|
      && image.Above(y) == image.pixels[up..up + image.w]
  {
    if y != 0 {
      image.InBounds(y - 1);
      if image.flip {
        OneStride(image.stride, image.height - 1 - y);
      } else {
        OneStride(image.stride, y - 1);
      }
    }
  }

  lemma OneStride(a: int, b: int)
    ensures a * (b + 1) == a * b + a
  {
  }
}
