/** The run-length coding of a Radiance scanline: each of the four components of a row is written as runs
of one byte and dumps of several. */
module Hdr {
  import opened Sequences
  import opened Bits
  import opened ByteReader

  function Repeat(b: byte, n: nat): (s: seq<byte>)
    ensures |s| == n && forall i :: 0 <= i < n ==> s[i] == b
  {
    if n == 0 then [] else Repeat(b, n - 1) + [b]
  }

  // ----- Packets -----

  datatype Packet = Dump(bytes: seq<byte>) | Run(n: nat, b: byte)

  /** No packet is empty, so that each makes the reader advance. */
  predicate IsPacket(p: Packet) {
    match p
    case Dump(bytes) => 1 <= |bytes| <= 128
    case Run(n, _) => 1 <= n <= 127
  }

  predicate ArePackets(ps: seq<Packet>) {
    forall i :: 0 <= i < |ps| ==> IsPacket(ps[i])
  }

  function Coded(p: Packet): seq<byte>
    requires IsPacket(p)
  {
    match p
    case Dump(bytes) => [|bytes|] + bytes
    case Run(n, b) => [n + 128, b]
  }

  function Plain(p: Packet): seq<byte> {
    match p
    case Dump(bytes) => bytes
    case Run(n, b) => Repeat(b, n)
  }

  /** A packet's first byte tells runs from dumps: above 128 it is the length of a run of the byte that follows, and
  otherwise the number of bytes that follow. */
  lemma CodedIs(p: Packet)
    requires IsPacket(p)
    ensures var bytes := Coded(p);
            && 0 < bytes[0] && |bytes| == 1 + (if bytes[0] > 128 then 1 else bytes[0])
            && (bytes[0] > 128 ==>
                  |Plain(p)| == bytes[0] - 128 && forall i :: 0 <= i < |Plain(p)| ==> Plain(p)[i] == bytes[1])
            && (bytes[0] <= 128 ==> Plain(p) == bytes[1..])
  {
  }

  function AllCoded(ps: seq<Packet>): seq<byte>
    requires ArePackets(ps)
  {
    if ps == [] then [] else Coded(ps[0]) + AllCoded(ps[1..])
  }

  function AllPlain(ps: seq<Packet>): seq<byte> {
    if ps == [] then [] else Plain(ps[0]) + AllPlain(ps[1..])
  }

  lemma {:induction false} CodedSnoc(ps: seq<Packet>, p: Packet)
    requires ArePackets(ps) && IsPacket(p)
    ensures ArePackets(ps + [p]) && AllCoded(ps + [p]) == AllCoded(ps) + Coded(p)
  {
    if ps == [] {
      assert AllCoded([p]) == Coded(p) + AllCoded([p][1..]);
    } else {
      CodedSnoc(ps[1..], p);
      assert (ps + [p])[1..] == ps[1..] + [p] && (ps + [p])[0] == ps[0];
      Associates(Coded(ps[0]), AllCoded(ps[1..]), Coded(p));
    }
  }

  lemma {:induction false} PlainSnoc(ps: seq<Packet>, p: Packet)
    ensures AllPlain(ps + [p]) == AllPlain(ps) + Plain(p)
  {
    if ps == [] {
      assert AllPlain([p]) == Plain(p) + AllPlain([p][1..]);
    } else {
      PlainSnoc(ps[1..], p);
      assert (ps + [p])[1..] == ps[1..] + [p] && (ps + [p])[0] == ps[0];
      Associates(Plain(ps[0]), AllPlain(ps[1..]), Plain(p));
    }
  }

  // ----- The writer -----

  /** The coded bytes of one component. */
  class Coder {
    var out: seq<byte>
    ghost var packets: seq<Packet>

    constructor (before: seq<byte>)
      ensures out == before && packets == []
    {
      out, packets := before, [];
    }

    /** The packets so far stand for the first x bytes. */
    ghost predicate Covers(start: seq<byte>, comp: seq<byte>, x: nat)
      reads this
    {
      ArePackets(packets) && out == start + AllCoded(packets) && IsFront(AllPlain(packets), comp, x)
    }

    /** One packet more. */
    method Write(coded: seq<byte>, ghost p: Packet, ghost start: seq<byte>, ghost comp: seq<byte>, ghost x: nat)
      requires Covers(start, comp, x) && IsPacket(p) && coded == Coded(p) && Continues(Plain(p), comp, x)
      modifies this
      ensures Covers(start, comp, x + |Plain(p)|)
    {
      CodedSnoc(packets, p);
      PlainSnoc(packets, p);
      FrontGrows(AllPlain(packets), Plain(p), comp, x);
      Associates(start, AllCoded(packets), coded);
      out := out + coded;
      packets := packets + [p];
    }

    method WriteDump(comp: seq<byte>, x: nat, len: nat, ghost start: seq<byte>)
      requires Covers(start, comp, x) && 1 <= len <= 128 && x + len <= |comp|
      modifies this
      ensures Covers(start, comp, x + len)
    {
      var data := comp[x..x + len];
      Write([len] + data, Dump(data), start, comp, x);
    }

    method WriteRun(comp: seq<byte>, x: nat, len: nat, ghost start: seq<byte>)
      requires Covers(start, comp, x) && 1 <= len <= 127 && x + len <= |comp|
      requires forall i :: x <= i < x + len ==> comp[i] == comp[x]
      modifies this
      ensures Covers(start, comp, x + len)
    {
      Write([len + 128, comp[x]], Run(len, comp[x]), start, comp, x);
    }

    /** Writes comp[x..r] in dumps. */
    method WriteDumps(comp: seq<byte>, x0: nat, r: nat, ghost start: seq<byte>) returns (x: nat)
      requires Covers(start, comp, x0) && x0 <= r <= |comp|
      modifies this
      ensures Covers(start, comp, r) && x == r
    {
      x := x0;
      while x < r
        invariant x <= r && Covers(start, comp, x)
      {
        var len := if r - x > 128 then 128 else r - x;
        WriteDump(comp, x, len, start);
        x := x + len;
      }
    }

    /** Writes the equal bytes comp[x..r] in runs. */
    method WriteRuns(comp: seq<byte>, x0: nat, r: nat, ghost start: seq<byte>) returns (x: nat)
      requires Covers(start, comp, x0) && x0 <= r <= |comp| && forall i :: x0 <= i < r ==> comp[i] == comp[x0]
      modifies this
      ensures Covers(start, comp, r) && x == r
    {
      x := x0;
      while x < r
        invariant x0 <= x <= r && Covers(start, comp, x)
      {
        var len := if r - x > 127 then 127 else r - x;
        WriteRun(comp, x, len, start);
        x := x + len;
      }
    }

    /** The whole component: dump up to the first run of at least three, then the run, and again. */
    method WriteComponent(comp: seq<byte>)
      requires packets == []
      modifies this
      ensures ArePackets(packets) && AllPlain(packets) == comp && out == old(out) + AllCoded(packets)
    {
      ghost var start := out;
      var x := 0;
      assert out == start + AllCoded([]);
      while x < |comp|
        invariant x <= |comp| && Covers(start, comp, x)
        decreases |comp| - x
      {
        var r := FindRun(comp, x);
        x := WriteDumps(comp, x, r, start);
        if r + 2 < |comp| {
          r := RunEnd(comp, r);
          x := WriteRuns(comp, x, r, start);
        }
      }
      assert AllPlain(packets) == comp;
    }
  }

  predicate IsFront(front: seq<byte>, comp: seq<byte>, x: nat) {
    |front| == x <= |comp| && forall i :: 0 <= i < x ==> front[i] == comp[i]
  }

  predicate Continues(data: seq<byte>, comp: seq<byte>, x: nat) {
    x + |data| <= |comp| && forall i :: 0 <= i < |data| ==> data[i] == comp[x + i]
  }

  lemma FrontGrows(front: seq<byte>, data: seq<byte>, comp: seq<byte>, x: nat)
    requires IsFront(front, comp, x) && Continues(data, comp, x)
    ensures IsFront(front + data, comp, x + |data|)
  {
  }

  /** The first place at or after x with three equal bytes, or the end. */
  method FindRun(comp: seq<byte>, x: nat) returns (r: nat)
    requires x < |comp|
    ensures x <= r <= |comp|
    ensures r + 2 < |comp| ==> comp[r] == comp[r + 1] == comp[r + 2]
    ensures r + 2 >= |comp| ==> r == |comp|
    ensures forall i :: x <= i < r && i + 2 < |comp| ==> !(comp[i] == comp[i + 1] == comp[i + 2])
  {
    r := x;
    while r + 2 < |comp|
      invariant x <= r <= |comp|
      invariant forall i :: x <= i < r && i + 2 < |comp| ==> !(comp[i] == comp[i + 1] == comp[i + 2])
    {
      if comp[r] == comp[r + 1] && comp[r] == comp[r + 2] {
        break;
      }
      r := r + 1;
    }
    if r + 2 >= |comp| {
      r := |comp|;
    }
  }

  /** The end of the run that starts at x. */
  method RunEnd(comp: seq<byte>, x: nat) returns (r: nat)
    requires x + 2 < |comp|
    ensures x < r <= |comp| && forall i :: x <= i < r ==> comp[i] == comp[x]
    ensures r < |comp| ==> comp[r] != comp[x]
  {
    r := x;
    while r < |comp| && comp[r] == comp[x]
      invariant x <= r <= |comp| && forall i :: x <= i < r ==> comp[i] == comp[x]
    {
      r := r + 1;
    }
  }

  // ----- The reader -----

  /** What the reader makes of one component. A dump of no bytes does not advance it, and past the end of
  the input it reads nothing but those. */
  datatype Row = Row(bytes: seq<byte>, next: nat) | Corrupt | NeverEnds

  function Bytes(s: seq<byte>, pos: nat, n: nat): (b: seq<byte>)
    ensures |b| == n
  {
    if n == 0 then [] else Bytes(s, pos, n - 1) + [At(s, pos + n - 1)]
  }

  function Prepend(b: seq<byte>, row: Row): Row {
    match row
    case Row(bytes, next) => Row(b + bytes, next)
    case _ => row
  }

  function ReadRow(s: seq<byte>, pos: nat, left: nat): Row
    decreases if pos < |s| then |s| - pos else 0
  {
    if left == 0 then Row([], pos)
    else if pos >= |s| then NeverEnds
    else
      var count := s[pos];
      if count > 128 then
        if count - 128 > left then Corrupt
        else Prepend(Repeat(At(s, pos + 1), count - 128), ReadRow(s, Skip(s, pos, 2), left - (count - 128)))
      else if count > left then Corrupt
      else Prepend(Bytes(s, pos + 1, count), ReadRow(s, Skip(s, pos, 1 + count), left - count))
  }

  datatype Status = Done | Bad | Endless

  function StatusOf(row: Row): Status {
    match row
    case Row(_, _) => Done
    case Corrupt => Bad
    case NeverEnds => Endless
  }

  /** Component k of the row, stored at every fourth byte. */
  ghost predicate Stored(scanline: seq<byte>, k: nat, row: seq<byte>)
    requires k < 4
  {
    |scanline| >= 4 * |row| && forall i :: 0 <= i < |row| ==> scanline[4 * i + k] == row[i]
  }

  /** The other components are as they were. */
  ghost predicate OthersKept(before: seq<byte>, after: seq<byte>, k: nat) {
    |before| == |after| && forall t :: 0 <= t < |after| && t % 4 != k ==> after[t] == before[t]
  }

  method ReadComponent(s: Context, scanline: array<byte>, width: nat, k: nat) returns (status: Status)
    requires k < 4 && scanline.Length == 4 * width && s.pos <= |s.buffer|
    modifies s, scanline
    ensures var row := ReadRow(s.buffer, old(s.pos), width);
            && status == StatusOf(row)
            && (row.Row? ==> s.pos == row.next && |row.bytes| == width && Stored(scanline[..], k, row.bytes))
    ensures OthersKept(old(scanline[..]), scanline[..], k)
  {
    ghost var before, all, done := scanline[..], ReadRow(s.buffer, s.pos, width), [];
    var i: nat := 0;
    while i < width
      invariant i <= width && |done| == i && s.pos <= |s.buffer|
      invariant all == Prepend(done, ReadRow(s.buffer, s.pos, width - i))
      invariant Stored(scanline[..], k, done) && OthersKept(before, scanline[..], k)
      decreases |s.buffer| - s.pos
    {
      if s.pos >= |s.buffer| {
        return Endless;
      }
      ghost var present := scanline[..];
      status, i, done := ReadPacket(s, scanline, width, k, i, all, done);
      KeptThen(before, present, scanline[..], k);
      if status != Done {
        return;
      }
    }
    status := Done;
    assert done + [] == done;
  }

  lemma KeptThen(a: seq<byte>, b: seq<byte>, c: seq<byte>, k: nat)
    requires OthersKept(a, b, k) && OthersKept(b, c, k)
    ensures OthersKept(a, c, k)
  {
  }

  /** One run or dump, if it fits what is left of the row. */
  method ReadPacket(s: Context, scanline: array<byte>, width: nat, k: nat, i: nat, ghost all: Row,
                    ghost done: seq<byte>)
    returns (status: Status, i': nat, ghost done': seq<byte>)
    requires k < 4 && scanline.Length == 4 * width && s.pos < |s.buffer| && |done| == i < width
    requires all == Prepend(done, ReadRow(s.buffer, s.pos, width - i)) && Stored(scanline[..], k, done)
    modifies s, scanline
    ensures status == Done ==> i' == |done'| <= width && old(s.pos) < s.pos <= |s.buffer|
    ensures status == Done ==>
              all == Prepend(done', ReadRow(s.buffer, s.pos, width - i')) && Stored(scanline[..], k, done')
    ensures status != Done ==> status == StatusOf(all)
    ensures OthersKept(old(scanline[..]), scanline[..], k)
  {
    var count: nat := s.Get8();
    if count > 128 {
      status, i', done' := ReadRun(s, scanline, width, k, i, count - 128, all, done);
    } else {
      status, i', done' := ReadDump(s, scanline, width, k, i, count, all, done);
    }
  }

  method ReadRun(s: Context, scanline: array<byte>, width: nat, k: nat, i: nat, count: nat, ghost all: Row,
                 ghost done: seq<byte>)
    returns (status: Status, i': nat, ghost done': seq<byte>)
    requires k < 4 && scanline.Length == 4 * width && 0 < s.pos <= |s.buffer| && |done| == i < width
    requires 0 < count && s.buffer[s.pos - 1] == count + 128
    requires all == Prepend(done, ReadRow(s.buffer, s.pos - 1, width - i)) && Stored(scanline[..], k, done)
    modifies s, scanline
    ensures status == Done ==> i' == |done'| <= width && old(s.pos) <= s.pos <= |s.buffer|
    ensures status == Done ==>
              all == Prepend(done', ReadRow(s.buffer, s.pos, width - i')) && Stored(scanline[..], k, done')
    ensures status != Done ==> status == StatusOf(all)
    ensures OthersKept(old(scanline[..]), scanline[..], k)
  {
    ghost var pos := s.pos - 1;
    i', done' := i, done;
    var value := s.Get8();
    if count > width - i { return Bad, i', done'; }
    i' := i + count;
    RunStep(s.buffer, pos, width - i, width - i', all, done, count);
    FillRun(scanline, k, i, count, value, done);
    done' := done + Repeat(value, count);
    status := Done;
  }

  method ReadDump(s: Context, scanline: array<byte>, width: nat, k: nat, i: nat, count: nat, ghost all: Row,
                  ghost done: seq<byte>)
    returns (status: Status, i': nat, ghost done': seq<byte>)
    requires k < 4 && scanline.Length == 4 * width && 0 < s.pos <= |s.buffer| && |done| == i < width
    requires count <= 128 && s.buffer[s.pos - 1] == count
    requires all == Prepend(done, ReadRow(s.buffer, s.pos - 1, width - i)) && Stored(scanline[..], k, done)
    modifies s, scanline
    ensures status == Done ==> i' == |done'| <= width && old(s.pos) <= s.pos <= |s.buffer|
    ensures status == Done ==>
              all == Prepend(done', ReadRow(s.buffer, s.pos, width - i')) && Stored(scanline[..], k, done')
    ensures status != Done ==> status == StatusOf(all)
    ensures OthersKept(old(scanline[..]), scanline[..], k)
  {
    ghost var from := s.pos;
    i', done' := i, done;
    if count > width - i { return Bad, i', done'; }
    i' := i + count;
    DumpStep(s.buffer, from - 1, from, width - i, width - i', all, done, count);
    FillDump(s, scanline, k, i, count, done);
    done' := done + Bytes(s.buffer, from, count);
    status := Done;
  }

  lemma RunStep(s: seq<byte>, pos: nat, left: nat, after: nat, all: Row, done: seq<byte>, count: nat)
    requires pos < |s| && 0 < count && left == after + count && s[pos] == count + 128
    requires all == Prepend(done, ReadRow(s, pos, left))
    ensures all == Prepend(done + Repeat(At(s, pos + 1), count), ReadRow(s, Skip(s, pos, 2), after))
  {
    Step(done, Repeat(At(s, pos + 1), count), ReadRow(s, Skip(s, pos, 2), after));
  }

  lemma DumpStep(s: seq<byte>, pos: nat, from: nat, left: nat, after: nat, all: Row, done: seq<byte>, count: nat)
    requires pos < |s| && from == pos + 1 && 0 < left == after + count && count <= 128 && s[pos] == count
    requires all == Prepend(done, ReadRow(s, pos, left))
    ensures all == Prepend(done + Bytes(s, from, count), ReadRow(s, Skip(s, from, count), after))
  {
    Step(done, Bytes(s, from, count), ReadRow(s, Skip(s, from, count), after));
  }

  lemma Step(done: seq<byte>, more: seq<byte>, rest: Row)
    ensures Prepend(done, Prepend(more, rest)) == Prepend(done + more, rest)
  {
    if rest.Row? {
      assert done + (more + rest.bytes) == (done + more) + rest.bytes;
    }
  }

  method FillRun(scanline: array<byte>, k: nat, i: nat, count: nat, value: byte, ghost done: seq<byte>)
    requires k < 4 && 4 * (i + count) <= scanline.Length && |done| == i && Stored(scanline[..], k, done)
    modifies scanline
    ensures Stored(scanline[..], k, done + Repeat(value, count)) && OthersKept(old(scanline[..]), scanline[..], k)
  {
    for z := 0 to count
      invariant Stored(scanline[..], k, done + Repeat(value, z)) && OthersKept(old(scanline[..]), scanline[..], k)
    {
      StoredNext(scanline[..], k, done + Repeat(value, z), value);
      assert done + Repeat(value, z + 1) == (done + Repeat(value, z)) + [value];
      StoreAt(scanline, 4 * (i + z) + k, value);
    }
  }

  method FillDump(s: Context, scanline: array<byte>, k: nat, i: nat, count: nat, ghost done: seq<byte>)
    requires k < 4 && 4 * (i + count) <= scanline.Length && |done| == i && Stored(scanline[..], k, done)
    requires s.pos <= |s.buffer|
    modifies s, scanline
    ensures s.pos == Skip(s.buffer, old(s.pos), count)
    ensures Stored(scanline[..], k, done + Bytes(s.buffer, old(s.pos), count))
    ensures OthersKept(old(scanline[..]), scanline[..], k)
  {
    for z := 0 to count
      invariant s.pos == Skip(s.buffer, old(s.pos), z)
      invariant Stored(scanline[..], k, done + Bytes(s.buffer, old(s.pos), z))
      invariant OthersKept(old(scanline[..]), scanline[..], k)
    {
      SkipAgain(s.buffer, old(s.pos), z, 0);
      SkipAgain(s.buffer, old(s.pos), z, 1);
      var v := s.Get8();
      StoredNext(scanline[..], k, done + Bytes(s.buffer, old(s.pos), z), v);
      assert done + Bytes(s.buffer, old(s.pos), z + 1) == (done + Bytes(s.buffer, old(s.pos), z)) + [v];
      StoreAt(scanline, 4 * (i + z) + k, v);
    }
  }

  method StoreAt(scanline: array<byte>, t: nat, v: byte)
    requires t < scanline.Length
    modifies scanline
    ensures scanline[..] == old(scanline[..])[t := v]
  {
    scanline[t] := v;
  }

  lemma StoredNext(scanline: seq<byte>, k: nat, row: seq<byte>, v: byte)
    requires k < 4 && Stored(scanline, k, row) && 4 * |row| + k < |scanline| && 4 * |row| + 4 <= |scanline|
    ensures Stored(scanline[4 * |row| + k := v], k, row + [v])
    ensures OthersKept(scanline, scanline[4 * |row| + k := v], k)
  {
    assert (4 * |row| + k) % 4 == k;
  }

  // ----- One component and back -----

  lemma {:induction false} BytesStand(s: seq<byte>, pos: nat, b: seq<byte>, n: nat)
    requires StandsAt(s, pos, b) && n <= |b|
    ensures Bytes(s, pos, n) == b[..n]
  {
    if n > 0 {
      BytesStand(s, pos, b, n - 1);
      assert s[pos + (n - 1)] == b[n - 1];
      assert b[..n] == b[..n - 1] + [b[n - 1]];
    }
  }

  /** One packet is read as what it stands for. */
  lemma PacketReads(s: seq<byte>, pos: nat, p: Packet, left: nat)
    requires IsPacket(p) && StandsAt(s, pos, Coded(p)) && |Plain(p)| <= left
    ensures ReadRow(s, pos, left) == Prepend(Plain(p), ReadRow(s, pos + |Coded(p)|, left - |Plain(p)|))
  {
    var coded := Coded(p);
    assert s[pos + 0] == coded[0];
    match p {
      case Run(n, b) => {
        assert s[pos + 1] == coded[1];
      }
      case Dump(bytes) => {
        StandsAppend(s, pos, [|bytes|], bytes);
        BytesStand(s, pos + 1, bytes, |bytes|);
        assert bytes[..|bytes|] == bytes;
      }
    }
  }

  lemma PacketThen(s: seq<byte>, pos: nat, p: Packet, plain: seq<byte>, width: nat, next: nat, end: nat)
    requires IsPacket(p) && StandsAt(s, pos, Coded(p)) && width == |Plain(p)| + |plain| && next == pos + |Coded(p)|
    requires ReadRow(s, next, |plain|) == Row(plain, end)
    ensures ReadRow(s, pos, width) == Row(Plain(p) + plain, end)
  {
    PacketReads(s, pos, p, width);
  }

  /** Reading what was written gives the component back and ends exactly after it. */
  lemma {:induction false} ComponentRoundTrip(s: seq<byte>, pos: nat, ps: seq<Packet>, width: nat, end: nat)
    requires ArePackets(ps) && StandsAt(s, pos, AllCoded(ps)) && width == |AllPlain(ps)| && end == pos + |AllCoded(ps)|
    ensures ReadRow(s, pos, width) == Row(AllPlain(ps), end)
    decreases |ps|
  {
    if ps != [] {
      var next := FirstStands(s, pos, ps);
      ComponentRoundTrip(s, next, ps[1..], |AllPlain(ps[1..])|, end);
      PacketThen(s, pos, ps[0], AllPlain(ps[1..]), width, next, end);
    }
  }

  lemma FirstStands(s: seq<byte>, pos: nat, ps: seq<Packet>) returns (next: nat)
    requires ArePackets(ps) && ps != [] && StandsAt(s, pos, AllCoded(ps))
    ensures StandsAt(s, pos, Coded(ps[0])) && StandsAt(s, next, AllCoded(ps[1..]))
    ensures next == pos + |Coded(ps[0])| && pos + |AllCoded(ps)| == next + |AllCoded(ps[1..])|
  {
    next := pos + |Coded(ps[0])|;
    StandsParts(s, pos, AllCoded(ps), Coded(ps[0]), AllCoded(ps[1..]), next);
  }

  lemma StandsParts(s: seq<byte>, pos: nat, all: seq<byte>, a: seq<byte>, b: seq<byte>, next: nat)
    requires StandsAt(s, pos, all) && all == a + b && next == pos + |a|
    ensures StandsAt(s, pos, a) && StandsAt(s, next, b) && pos + |all| == next + |b|
  {
    StandsAppend(s, pos, a, b);
  }
}
