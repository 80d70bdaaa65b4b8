/** Whole Radiance scanlines in run-length form: a header with the width, then the four components. */
module HdrScanline {
  import opened Bits
  import opened ByteReader
  import opened Hdr

  /** The widths that the form covers; other scanlines are written as they are. */
  predicate HasForm(width: nat) {
    8 <= width < 32768
  }

  /** A row of pixels as its four components. */
  predicate IsRow(planes: seq<seq<byte>>, width: nat) {
    |planes| == 4 && forall c :: 0 <= c < 4 ==> |planes[c]| == width
  }

  function Header(width: nat): (h: seq<byte>)
    requires HasForm(width)
    ensures |h| == 4
  {
    [2, 2, width / 256, width % 256]
  }

  predicate AllPackets(pss: seq<seq<Packet>>) {
    forall c :: 0 <= c < |pss| ==> ArePackets(pss[c])
  }

  /** The header and the first components' packets, one component after the other. */
  function Coded(width: nat, pss: seq<seq<Packet>>): seq<byte>
    requires HasForm(width) && AllPackets(pss)
  {
    if pss == [] then Header(width) else Coded(width, pss[..|pss| - 1]) + AllCoded(pss[|pss| - 1])
  }

  /** The packets stand for the components. */
  predicate StandFor(pss: seq<seq<Packet>>, planes: seq<seq<byte>>) {
    |pss| <= |planes| && AllPackets(pss) && forall c :: 0 <= c < |pss| ==> AllPlain(pss[c]) == planes[c]
  }

  /** A written scanline begins with two twos and its width in two bytes, the higher one first; then come the packets of
  the four components, one component after the other. */
  lemma CodedIs(width: nat, pss: seq<seq<Packet>>)
    requires HasForm(width) && |pss| == 4 && AllPackets(pss)
    ensures Coded(width, pss)
         == [2, 2, width / 256, width % 256] + AllCoded(pss[0]) + AllCoded(pss[1]) + AllCoded(pss[2]) + AllCoded(pss[3])
  {
    assert pss[..3][..2] == pss[..2] && pss[..2][..1] == pss[..1] && pss[..1][..0] == [];
    assert Coded(width, pss) == Coded(width, pss[..3]) + AllCoded(pss[3]);
    assert Coded(width, pss[..3]) == Coded(width, pss[..2]) + AllCoded(pss[2]);
    assert Coded(width, pss[..2]) == Coded(width, pss[..1]) + AllCoded(pss[1]);
    assert Coded(width, pss[..1]) == Coded(width, []) + AllCoded(pss[0]);
  }

  // ----- The writer -----

  method WriteScanline(planes: seq<seq<byte>>, width: nat) returns (out: seq<byte>, ghost pss: seq<seq<Packet>>)
    requires IsRow(planes, width) && HasForm(width)
    ensures |pss| == 4 && StandFor(pss, planes) && out == Coded(width, pss)
  {
    pss := [];
    out := Header(width);
    for c := 0 to 4
      invariant |pss| == c && StandFor(pss, planes) && out == Coded(width, pss)
    {
      var coder := new Coder(out);
      coder.WriteComponent(planes[c]);
      out := coder.out;
      OneMoreComponent(width, pss, coder.packets, planes);
      pss := pss + [coder.packets];
    }
  }

  lemma OneMoreComponent(width: nat, pss: seq<seq<Packet>>, ps: seq<Packet>, planes: seq<seq<byte>>)
    requires HasForm(width) && StandFor(pss, planes) && ArePackets(ps) && |pss| < |planes|
    requires AllPlain(ps) == planes[|pss|]
    ensures StandFor(pss + [ps], planes) && Coded(width, pss + [ps]) == Coded(width, pss) + AllCoded(ps)
  {
    assert (pss + [ps])[..|pss|] == pss;
  }

  // ----- The reader -----

  datatype Scan =
    | Scan(rows: seq<seq<byte>>, next: nat)
    | Unread(status: Status)
    | NotRunLength
    | WrongLength

  /** The first n components. */
  function ReadRows(s: seq<byte>, pos: nat, width: nat, n: nat): Scan {
    if n == 0 then Scan([], pos) else
      var before := ReadRows(s, pos, width, n - 1);
      if !before.Scan? then before else
        var row := ReadRow(s, before.next, width);
        if row.Row? then Scan(before.rows + [row.bytes], row.next) else Unread(StatusOf(row))
  }

  function ReadScan(s: seq<byte>, pos: nat, width: nat): Scan {
    if At(s, pos) != 2 || At(s, pos + 1) != 2 || At(s, pos + 2) >= 128 then NotRunLength
    else if At(s, pos + 2) as int * 256 + At(s, pos + 3) != width then WrongLength
    else ReadRows(s, Skip(s, pos, 4), width, 4)
  }

  datatype Outcome = Read | Failed(status: Status) | Flat | Mismatch

  function OutcomeOf(scan: Scan): Outcome {
    match scan
    case Scan(_, _) => Read
    case Unread(status) => Failed(status)
    case NotRunLength => Flat
    case WrongLength => Mismatch
  }

  /** The row is stored pixel by pixel. */
  ghost predicate Interleaved(scanline: seq<byte>, rows: seq<seq<byte>>, width: nat) {
    |scanline| == 4 * width && |rows| <= 4
    && forall c :: 0 <= c < |rows| ==> |rows[c]| == width && Stored(scanline, c, rows[c])
  }

  method ReadScanline(s: Context, scanline: array<byte>, width: nat) returns (outcome: Outcome)
    requires scanline.Length == 4 * width && s.pos <= |s.buffer|
    modifies s, scanline
    ensures var scan := ReadScan(s.buffer, old(s.pos), width);
            && outcome == OutcomeOf(scan)
            && (scan.Scan? ==> s.pos == scan.next && |scan.rows| == 4 && Interleaved(scanline[..], scan.rows, width))
  {
    ghost var pos := s.pos;
    SkipAgain(s.buffer, pos, 1, 0);
    SkipAgain(s.buffer, pos, 1, 1);
    SkipAgain(s.buffer, pos, 2, 0);
    SkipAgain(s.buffer, pos, 2, 1);
    SkipAgain(s.buffer, pos, 3, 0);
    SkipAgain(s.buffer, pos, 3, 1);
    var c1 := s.Get8();
    var c2 := s.Get8();
    var len: nat := s.Get8();
    if c1 != 2 || c2 != 2 || len >= 128 {
      return Flat;
    }
    var low := s.Get8();
    len := len * 256 + low;
    if len != width {
      return Mismatch;
    }
    outcome := ReadComponents(s, scanline, width);
  }

  method ReadComponents(s: Context, scanline: array<byte>, width: nat) returns (outcome: Outcome)
    requires scanline.Length == 4 * width && s.pos <= |s.buffer|
    modifies s, scanline
    ensures var scan := ReadRows(s.buffer, old(s.pos), width, 4);
            && outcome == OutcomeOf(scan)
            && (scan.Scan? ==> s.pos == scan.next && |scan.rows| == 4 && Interleaved(scanline[..], scan.rows, width))
  {
    ghost var rows := [];
    for k := 0 to 4
      invariant s.pos <= |s.buffer| && |rows| == k && ReadRows(s.buffer, old(s.pos), width, k) == Scan(rows, s.pos)
      invariant Interleaved(scanline[..], rows, width)
    {
      ghost var before, row := scanline[..], ReadRow(s.buffer, s.pos, width);
      RowInBounds(s.buffer, s.pos, width);
      var status := ReadComponent(s, scanline, width, k);
      if status != Done {
        Unreadable(s.buffer, old(s.pos), width, k + 1);
        return Failed(status);
      }
      OthersStay(before, scanline[..], rows, width, k);
      rows := rows + [row.bytes];
    }
    outcome := Read;
  }

  lemma {:induction false} RowInBounds(s: seq<byte>, pos: nat, left: nat)
    requires pos <= |s|
    ensures ReadRow(s, pos, left).Row? ==> ReadRow(s, pos, left).next <= |s|
    decreases |s| - pos
  {
    if left > 0 && pos < |s| {
      var count := s[pos];
      if count > 128 && count - 128 <= left {
        RowInBounds(s, Skip(s, pos, 2), left - (count - 128));
      } else if count <= 128 && count <= left {
        RowInBounds(s, Skip(s, pos, 1 + count), left - count);
      }
    }
  }

  lemma {:induction false} Unreadable(s: seq<byte>, pos: nat, width: nat, n: nat)
    requires n <= 4 && !ReadRows(s, pos, width, n).Scan?
    ensures ReadRows(s, pos, width, 4) == ReadRows(s, pos, width, n)
    decreases 4 - n
  {
    if n < 4 {
      Unreadable(s, pos, width, n + 1);
    }
  }

  /** Storing one component leaves the others where they are. */
  lemma OthersStay(before: seq<byte>, after: seq<byte>, rows: seq<seq<byte>>, width: nat, k: nat)
    requires k < 4 && |rows| == k && Interleaved(before, rows, width) && OthersKept(before, after, k)
    ensures Interleaved(after, rows, width)
  {
    forall c | 0 <= c < k ensures Stored(after, c, rows[c]) {
      assert Stored(before, c, rows[c]);
      forall i | 0 <= i < width ensures after[4 * i + c] == rows[c][i] {
        assert (4 * i + c) % 4 == c;
      }
    }
  }

  // ----- And back -----

  /** Reading gave the first components, up to a position. */
  predicate Gives(scan: Scan, planes: seq<seq<byte>>, n: nat, next: nat) {
    && scan.Scan? && scan.next == next && |scan.rows| == n <= |planes|
    && forall c :: 0 <= c < n ==> scan.rows[c] == planes[c]
  }

  lemma NextRow(s: seq<byte>, pos: nat, width: nat, planes: seq<seq<byte>>, n: nat, mid: nat, end: nat)
    requires n < |planes| && Gives(ReadRows(s, pos, width, n), planes, n, mid)
    requires ReadRow(s, mid, width) == Row(planes[n], end)
    ensures Gives(ReadRows(s, pos, width, n + 1), planes, n + 1, end)
  {
  }

  /** The components of a written scanline are read one after the other. */
  lemma {:induction false} RowsRoundTrip(s: seq<byte>, pos: nat, width: nat, pss: seq<seq<Packet>>,
                                         planes: seq<seq<byte>>)
    requires HasForm(width) && IsRow(planes, width) && StandFor(pss, planes)
    requires StandsAt(s, pos, Coded(width, pss))
    ensures Gives(ReadRows(s, pos + 4, width, |pss|), planes, |pss|, pos + |Coded(width, pss)|)
    ensures StandsAt(s, pos, Header(width))
    decreases |pss|
  {
    if pss != [] {
      var n := |pss| - 1;
      var front, last := Coded(width, pss[..n]), AllCoded(pss[n]);
      StandsAppend(s, pos, front, last);
      RowsRoundTrip(s, pos, width, pss[..n], planes);
      OneMoreRow(s, pos + 4, width, pss[n], planes, n, pos + |front|, pos + |front| + |last|);
    }
  }

  lemma OneMoreRow(s: seq<byte>, pos: nat, width: nat, ps: seq<Packet>, planes: seq<seq<byte>>, n: nat, mid: nat,
                   end: nat)
    requires IsRow(planes, width) && n < 4 && ArePackets(ps) && AllPlain(ps) == planes[n]
    requires StandsAt(s, mid, AllCoded(ps)) && end == mid + |AllCoded(ps)|
    requires Gives(ReadRows(s, pos, width, n), planes, n, mid)
    ensures Gives(ReadRows(s, pos, width, n + 1), planes, n + 1, end)
  {
    ComponentRoundTrip(s, mid, ps, width, end);
    NextRow(s, pos, width, planes, n, mid, end);
  }

  /** A written scanline is read back whole, and reading ends exactly after it. */
  lemma ScanlineRoundTrip(s: seq<byte>, pos: nat, width: nat, pss: seq<seq<Packet>>, planes: seq<seq<byte>>)
    requires HasForm(width) && IsRow(planes, width) && StandFor(pss, planes) && |pss| == 4
    requires StandsAt(s, pos, Coded(width, pss))
    ensures ReadScan(s, pos, width) == Scan(planes, pos + |Coded(width, pss)|)
  {
    RowsRoundTrip(s, pos, width, pss, planes);
    HeaderReads(s, pos, width);
    assert ReadRows(s, pos + 4, width, 4).rows == planes;
  }

  lemma HeaderReads(s: seq<byte>, pos: nat, width: nat)
    requires HasForm(width) && StandsAt(s, pos, Header(width))
    ensures ReadScan(s, pos, width) == ReadRows(s, pos + 4, width, 4)
  {
    var h := Header(width);
    assert s[pos + 0] == h[0] && s[pos + 1] == h[1] && s[pos + 2] == h[2] && s[pos + 3] == h[3];
  }

  /** Writing and reading, with the program itself. */
  method WriteAndRead(planes: seq<seq<byte>>, width: nat) returns (outcome: Outcome, scanline: array<byte>)
    requires IsRow(planes, width) && HasForm(width)
    ensures outcome == Read && Interleaved(scanline[..], planes, width)
  {
    var out, pss := WriteScanline(planes, width);
    ScanlineRoundTrip(out, 0, width, pss, planes);
    var s := new Context(out);
    scanline := new byte[4 * width];
    outcome := ReadScanline(s, scanline, width);
  }
}
