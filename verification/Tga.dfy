/** Run-length coding of TGA pixels: the writer's packets for a row, and the reader's pixel by pixel count
of how many more pixels the present packet holds. */
module Tga {
  import opened Sequences
  import opened Bits
  import opened ByteReader

  /** A pixel's components. */
  datatype Pixel = Pixel(b: seq<byte>)

  predicate ArePixels(pixels: seq<Pixel>, comp: nat) {
    forall i :: 0 <= i < |pixels| ==> |pixels[i].b| == comp
  }

  /** Red and blue change places, in the file and back. */
  function Swapped(p: Pixel): (q: Pixel)
    ensures |q.b| == |p.b|
  {
    if |p.b| >= 3 then Pixel(p.b[0 := p.b[2]][2 := p.b[0]]) else p
  }

  lemma SwapTwice(p: Pixel)
    ensures Swapped(Swapped(p)) == p
  {
  }

  /** In the file the first three bytes are blue, green and red, and an alpha stays behind them. */
  lemma SwappedIs(p: Pixel, c: nat)
    requires c < |p.b|
    ensures Swapped(p).b[c] == if |p.b| < 3 then p.b[c]
                               else if c == 0 then p.b[2]
                               else if c == 2 then p.b[0]
                               else p.b[c]
  {
  }

  // ----- Packets -----

  datatype Packet = Raw(pixels: seq<Pixel>) | Run(n: nat, pixel: Pixel)

  predicate IsPacket(p: Packet, comp: nat) {
    match p
    case Raw(pixels) => 1 <= |pixels| <= 128 && ArePixels(pixels, comp)
    case Run(n, pixel) => 1 <= n <= 128 && |pixel.b| == comp
  }

  predicate ArePackets(ps: seq<Packet>, comp: nat) {
    forall i :: 0 <= i < |ps| ==> IsPacket(ps[i], comp)
  }

  function Repeat(p: Pixel, n: nat): (s: seq<Pixel>)
    ensures |s| == n
  {
    if n == 0 then [] else [p] + Repeat(p, n - 1)
  }

  lemma {:induction false} RepeatAt(p: Pixel, n: nat, i: nat)
    requires i < n
    ensures Repeat(p, n)[i] == p
  {
    if i > 0 {
      RepeatAt(p, n - 1, i - 1);
    }
  }

  function Plain(p: Packet): seq<Pixel> {
    match p
    case Raw(pixels) => pixels
    case Run(n, pixel) => Repeat(pixel, n)
  }

  function AllPlain(ps: seq<Packet>): seq<Pixel> {
    if ps == [] then [] else Plain(ps[0]) + AllPlain(ps[1..])
  }

  /** Pixels as they stand in the file. */
  function Bytes(pixels: seq<Pixel>): seq<byte> {
    if pixels == [] then [] else Swapped(pixels[0]).b + Bytes(pixels[1..])
  }

  function Coded(p: Packet, comp: nat): seq<byte>
    requires IsPacket(p, comp)
  {
    match p
    case Raw(pixels) => [|pixels| - 1] + Bytes(pixels)
    case Run(n, pixel) => [n + 127] + Swapped(pixel).b
  }

  function AllCoded(ps: seq<Packet>, comp: nat): seq<byte>
    requires ArePackets(ps, comp)
  {
    if ps == [] then [] else Coded(ps[0], comp) + AllCoded(ps[1..], comp)
  }

  lemma {:induction false} CodedSnoc(ps: seq<Packet>, p: Packet, comp: nat)
    requires ArePackets(ps, comp) && IsPacket(p, comp)
    ensures ArePackets(ps + [p], comp) && AllCoded(ps + [p], comp) == AllCoded(ps, comp) + Coded(p, comp)
  {
    if ps == [] {
      assert AllCoded([p], comp) == Coded(p, comp) + AllCoded([p][1..], comp);
    } else {
      CodedSnoc(ps[1..], p, comp);
      assert (ps + [p])[1..] == ps[1..] + [p] && (ps + [p])[0] == ps[0];
      Associates(Coded(ps[0], comp), AllCoded(ps[1..], comp), Coded(p, comp));
    }
  }

  lemma {:induction false} PlainSnoc(ps: seq<Packet>, p: Packet)
    ensures AllPlain(ps + [p]) == AllPlain(ps) + Plain(p)
  {
    if ps == [] {
      assert AllPlain([p]) == Plain(p) + AllPlain([p][1..]);
    } else {
      PlainSnoc(ps[1..], p);
      assert (ps + [p])[1..] == ps[1..] + [p] && (ps + [p])[0] == ps[0];
      Associates(Plain(ps[0]), AllPlain(ps[1..]), Plain(p));
    }
  }

  lemma {:induction false} BytesAt(pixels: seq<Pixel>, comp: nat, i: nat, c: nat, at: nat)
    requires ArePixels(pixels, comp) && i < |pixels| && c < comp && at == i * comp + c
    ensures at < |Bytes(pixels)| && Bytes(pixels)[at] == Swapped(pixels[i]).b[c]
  {
    if i > 0 {
      assert i * comp == (i - 1) * comp + comp;
      BytesAt(pixels[1..], comp, i - 1, c, at - comp);
    }
  }

  /** A packet begins with a byte that is one less than the number of its pixels, with the highest bit set for a run.
  Then comes one pixel, or all of them, with red and blue in each other's places. */
  lemma CodedIs(p: Packet, comp: nat, i: nat, c: nat, at: nat)
    requires IsPacket(p, comp) && c < comp && i < |Plain(p)| && at == 1 + (if p.Run? then 0 else i * comp) + c
    ensures Coded(p, comp)[0] == |Plain(p)| - 1 + (if p.Run? then 128 else 0)
    ensures at < |Coded(p, comp)| && |Plain(p)[i].b| == comp
    ensures Coded(p, comp)[at] == Plain(p)[i].b[if comp >= 3 && c == 0 then 2 else if comp >= 3 && c == 2 then 0 else c]
  {
    if p.Run? {
      RepeatAt(p.pixel, p.n, i);
      SwappedIs(p.pixel, c);
    } else {
      BytesAt(p.pixels, comp, i, c, at - 1);
      SwappedIs(p.pixels[i], c);
    }
  }

  // ----- The writer -----

  /** How many pixels from i on the next packet takes, and whether they are all the same. */
  method Measure(row: seq<Pixel>, i: nat) returns (len: nat, same: bool)
    requires i < |row|
    ensures 1 <= len <= 128 && i + len <= |row|
    ensures same ==> len >= 2 && forall k :: i <= k < i + len ==> row[k] == row[i]
    ensures !same && i + 1 < |row| ==> row[i] != row[i + 1]
  {
    len, same := 1, false;
    if i < |row| - 1 {
      len := 2;
      same := row[i] == row[i + 1];
      if same {
        len := RunLength(row, i);
      } else {
        len := RawLength(row, i);
      }
    }
  }

  /** Up to the first pixel that differs, or 128. */
  method RunLength(row: seq<Pixel>, i: nat) returns (len: nat)
    requires i + 1 < |row| && row[i] == row[i + 1]
    ensures 2 <= len <= 128 && i + len <= |row| && forall k :: i <= k < i + len ==> row[k] == row[i]
    ensures i + len < |row| && len < 128 ==> row[i + len] != row[i]
  {
    len := 2;
    var k := i + 2;
    while k < |row| && len < 128
      invariant k == i + len && 2 <= len <= 128 && k <= |row|
      invariant forall l :: i <= l < k ==> row[l] == row[i]
    {
      if row[i] != row[k] { break; }
      len := len + 1;
      k := k + 1;
    }
  }

  /** Up to the pixel before one that equals the last but one before it, or 128. */
  method RawLength(row: seq<Pixel>, i: nat) returns (len: nat)
    requires i + 1 < |row|
    ensures 1 <= len <= 128 && i + len <= |row|
  {
    len := 2;
    var prev, k := i, i + 2;
    while k < |row| && len < 128
      invariant k == i + len && prev == k - 2 && 2 <= len <= 128 && k <= |row|
    {
      if row[prev] == row[k] {
        len := len - 1;
        return;
      }
      prev := prev + 1;
      len := len + 1;
      k := k + 1;
    }
  }

  predicate IsFront(front: seq<Pixel>, row: seq<Pixel>, i: nat) {
    |front| == i <= |row| && forall k :: 0 <= k < i ==> front[k] == row[k]
  }

  predicate Continues(more: seq<Pixel>, row: seq<Pixel>, i: nat) {
    i + |more| <= |row| && forall k :: 0 <= k < |more| ==> more[k] == row[i + k]
  }

  lemma FrontGrows(front: seq<Pixel>, more: seq<Pixel>, row: seq<Pixel>, i: nat)
    requires IsFront(front, row, i) && Continues(more, row, i)
    ensures IsFront(front + more, row, i + |more|)
  {
    forall k | 0 <= k < i + |more| ensures (front + more)[k] == row[k] {
      if k >= i {
        assert (front + more)[k] == more[k - i] == row[i + (k - i)];
      }
    }
  }

  /** One row after what has been written: packets of 1 to 128 pixels that together are the row. */
  method WriteRow(row: seq<Pixel>, comp: nat, before: seq<byte>, ghost ps0: seq<Packet>)
    returns (out: seq<byte>, ghost ps: seq<Packet>)
    requires ArePixels(row, comp) && ArePackets(ps0, comp) && before == AllCoded(ps0, comp)
    ensures ArePackets(ps, comp) && AllPlain(ps) == AllPlain(ps0) + row && out == AllCoded(ps, comp)
  {
    out, ps := before, ps0;
    ghost var done := [];
    var i := 0;
    assert AllPlain(ps) == AllPlain(ps0) + done;
    while i < |row|
      invariant ArePackets(ps, comp) && IsFront(done, row, i) && out == AllCoded(ps, comp)
      invariant AllPlain(ps) == AllPlain(ps0) + done
    {
      var len, same := Measure(row, i);
      var coded;
      ghost var p;
      coded, p := WritePacket(row, i, len, same, comp);
      CodedSnoc(ps, p, comp);
      PlainSnoc(ps, p);
      FrontGrows(done, Plain(p), row, i);
      Associates(AllPlain(ps0), done, Plain(p));
      out, ps, done := out + coded, ps + [p], done + Plain(p);
      i := i + len;
    }
    assert done == row;
  }

  method WritePacket(row: seq<Pixel>, i: nat, len: nat, same: bool, comp: nat)
    returns (coded: seq<byte>, ghost p: Packet)
    requires ArePixels(row, comp) && 1 <= len <= 128 && i + len <= |row|
    requires same ==> forall k :: i <= k < i + len ==> row[k] == row[i]
    ensures IsPacket(p, comp) && coded == Coded(p, comp) && |Plain(p)| == len && Continues(Plain(p), row, i)
  {
    if same {
      p := Run(len, row[i]);
      forall k | 0 <= k < len ensures Plain(p)[k] == row[i + k] {
        RepeatAt(row[i], len, k);
      }
      coded := [UChar(len - 129)] + Swapped(row[i]).b;
    } else {
      p := Raw(row[i..i + len]);
      coded := WritePixels([UChar(len - 1)], row[i..i + len]);
    }
  }

  method WritePixels(before: seq<byte>, pixels: seq<Pixel>) returns (coded: seq<byte>)
    ensures coded == before + Bytes(pixels)
  {
    coded := before;
    for k := 0 to |pixels|
      invariant coded + Bytes(pixels[k..]) == before + Bytes(pixels)
    {
      BytesFrom(coded, pixels, k);
      coded := coded + Swapped(pixels[k]).b;
    }
    assert coded + [] == coded;
  }

  lemma BytesFrom(coded: seq<byte>, pixels: seq<Pixel>, k: nat)
    requires k < |pixels|
    ensures coded + Bytes(pixels[k..]) == coded + Swapped(pixels[k]).b + Bytes(pixels[k + 1..])
  {
    assert pixels[k..][1..] == pixels[k + 1..];
    Associates(coded, Swapped(pixels[k]).b, Bytes(pixels[k + 1..]));
  }

  // ----- The reader -----

  /** The next byte of the input, zero at its end. */
  function Head(t: seq<byte>): byte {
    if t == [] then 0 else t[0]
  }

  function Tail(t: seq<byte>): seq<byte> {
    if t == [] then [] else t[1..]
  }

  function After(t: seq<byte>, n: nat): seq<byte>
    decreases n
  {
    if n == 0 then t else After(Tail(t), n - 1)
  }

  /** The bytes of a pixel in the file. */
  function Take(t: seq<byte>, n: nat): (b: seq<byte>)
    ensures |b| == n
    decreases n
  {
    if n == 0 then [] else [Head(t)] + Take(Tail(t), n - 1)
  }

  function PixelOf(t: seq<byte>, comp: nat): (p: Pixel)
    ensures |p.b| == comp
  {
    Pixel(Take(t, comp))
  }

  /** A pixel, the rest of the input, and the present packet: how many more pixels, and whether they repeat
  this one. */
  datatype Turn = Turn(p: Pixel, t: seq<byte>, count: nat, repeating: bool)

  /** The next pixel: from the present packet, which may repeat the last one, or from a new packet. */
  function Next(t: seq<byte>, comp: nat, count: nat, repeating: bool, last: Pixel): Turn {
    if count == 0 then Turn(PixelOf(Tail(t), comp), After(Tail(t), comp), Head(t) as nat % 128, Head(t) >= 128)
    else if repeating then Turn(last, t, count - 1, true)
    else Turn(PixelOf(t, comp), After(t, comp), count - 1, false)
  }

  /** All the pixels to come. */
  function Pixels(t: seq<byte>, comp: nat, left: nat, count: nat, repeating: bool, last: Pixel): (r: seq<Pixel>)
    ensures |r| == left
    decreases left
  {
    if left == 0 then [] else
      var turn := Next(t, comp, count, repeating, last);
      [turn.p] + Pixels(turn.t, comp, left - 1, turn.count, turn.repeating, turn.p)
  }

  /** What the cursor has not yet read. */
  ghost function Left(s: Context): seq<byte>
    reads s
  {
    if s.pos < |s.buffer| then s.buffer[s.pos..] else []
  }

  method ReadByte(s: Context) returns (b: byte)
    modifies s
    ensures b == Head(old(Left(s))) && Left(s) == Tail(old(Left(s)))
  {
    b := s.Get8();
  }

  method ReadPixel(s: Context, comp: nat) returns (p: Pixel)
    modifies s
    ensures p == PixelOf(old(Left(s)), comp) && Left(s) == After(old(Left(s)), comp)
  {
    ghost var t := Left(s);
    var bytes := [];
    for j := 0 to comp
      invariant bytes + Take(Left(s), comp - j) == Take(t, comp) && After(Left(s), comp - j) == After(t, comp)
    {
      var b := ReadByte(s);
      Associates(bytes, [b], Take(Left(s), comp - j - 1));
      bytes := bytes + [b];
    }
    p := Pixel(bytes);
  }

  method NextPixel(s: Context, comp: nat, count0: nat, repeating0: bool, last: Pixel)
    returns (rawData: Pixel, count: nat, repeating: bool)
    modifies s
    ensures Next(old(Left(s)), comp, count0, repeating0, last) == Turn(rawData, Left(s), count, repeating)
  {
    rawData, count, repeating := last, count0, repeating0;
    var readNext := false;
    if count == 0 {
      var cmd: nat := ReadByte(s);
      count := 1 + cmd % 128;
      repeating := cmd >= 128;
      readNext := true;
    } else if !repeating {
      readNext := true;
    }
    if readNext {
      rawData := ReadPixel(s, comp);
    }
    count := count - 1;
  }

  predicate IsRest(rest: seq<Pixel>, all: seq<Pixel>, i: nat) {
    i + |rest| == |all| && forall k :: 0 <= k < |rest| ==> rest[k] == all[i + k]
  }

  lemma RestShrinks(p: Pixel, rest: seq<Pixel>, all: seq<Pixel>, i: nat)
    requires IsRest([p] + rest, all, i)
    ensures i < |all| && all[i] == p && IsRest(rest, all, i + 1)
  {
    var more := [p] + rest;
    assert more[0] == p && |more| == |rest| + 1;
    forall k | 0 <= k < |rest| ensures rest[k] == all[i + 1 + k] {
      assert more[k + 1] == rest[k];
    }
  }

  /** From this state the reader will give the pixels of all from i on. */
  ghost predicate Gives(t: seq<byte>, comp: nat, left: nat, count: nat, repeating: bool, last: Pixel, all: seq<Pixel>,
                        i: nat) {
    IsRest(Pixels(t, comp, left, count, repeating, last), all, i)
  }

  /** The first i pixels are in their places. */
  ghost predicate Stored(data: array<Pixel>, i: nat, all: seq<Pixel>)
    reads data
  {
    i <= data.Length == |all| && forall k :: 0 <= k < i ==> data[k] == all[k]
  }

  /** Reads the pixel at i and stores it. */
  method ReadAt(s: Context, comp: nat, count0: nat, repeating0: bool, last: Pixel, data: array<Pixel>, i: nat,
                ghost all: seq<Pixel>)
    returns (rawData: Pixel, count: nat, repeating: bool)
    requires i < data.Length && Stored(data, i, all)
    requires Gives(Left(s), comp, data.Length - i, count0, repeating0, last, all, i)
    modifies s, data
    ensures Stored(data, i + 1, all) && Gives(Left(s), comp, data.Length - i - 1, count, repeating, rawData, all, i + 1)
  {
    rawData, count, repeating := NextPixel(s, comp, count0, repeating0, last);
    RestShrinks(rawData, Pixels(Left(s), comp, data.Length - i - 1, count, repeating, rawData), all, i);
    data[i] := rawData;
  }

  /** Fills data with all there is to read. */
  method ReadAll(s: Context, comp: nat, data: array<Pixel>, ghost all: seq<Pixel>)
    requires data.Length == |all| && Gives(Left(s), comp, data.Length, 0, false, Pixel([]), all, 0)
    modifies s, data
    ensures Stored(data, data.Length, all)
  {
    var rawData := Pixel([]);
    var count: nat, repeating := 0, false;
    var i: nat := 0;
    while i < data.Length
      invariant Stored(data, i, all) && Gives(Left(s), comp, data.Length - i, count, repeating, rawData, all, i)
    {
      rawData, count, repeating := ReadAt(s, comp, count, repeating, rawData, data, i, all);
      i := i + 1;
    }
  }

  /** Reads as many pixels as the image has. */
  method ReadPixels(s: Context, comp: nat, data: array<Pixel>)
    modifies s, data
    ensures data[..] == Pixels(old(Left(s)), comp, data.Length, 0, false, Pixel([]))
  {
    ReadAll(s, comp, data, Pixels(Left(s), comp, data.Length, 0, false, Pixel([])));
  }

  // ----- Packets and back -----

  function SwapAll(pixels: seq<Pixel>): (r: seq<Pixel>)
    ensures |r| == |pixels|
  {
    if pixels == [] then [] else [Swapped(pixels[0])] + SwapAll(pixels[1..])
  }

  lemma {:induction false} SwapAllAt(pixels: seq<Pixel>, i: nat)
    requires i < |pixels|
    ensures SwapAll(pixels)[i] == Swapped(pixels[i])
  {
    if i > 0 {
      SwapAllAt(pixels[1..], i - 1);
    }
  }

  lemma {:induction false} SwapAllRepeat(p: Pixel, n: nat)
    ensures SwapAll(Repeat(p, n)) == Repeat(Swapped(p), n)
  {
    if n > 0 {
      SwapAllRepeat(p, n - 1);
      assert ([p] + Repeat(p, n - 1))[1..] == Repeat(p, n - 1);
    }
  }

  lemma {:induction false} BytesRead(b: seq<byte>, t: seq<byte>)
    ensures Take(b + t, |b|) == b && After(b + t, |b|) == t
    decreases |b|
  {
    if b == [] {
      assert b + t == t;
    } else {
      BytesRead(b[1..], t);
      TailOfSum(b, t);
    }
  }

  lemma TailOfSum(b: seq<byte>, t: seq<byte>)
    requires b != []
    ensures Head(b + t) == b[0] && Tail(b + t) == b[1..] + t && [b[0]] + b[1..] == b
  {
  }

  lemma PixelReads(p: Pixel, t: seq<byte>)
    ensures PixelOf(p.b + t, |p.b|) == p && After(p.b + t, |p.b|) == t
  {
    BytesRead(p.b, t);
  }

  /** Between packets it does not matter how the last one was. */
  lemma BetweenPackets(t: seq<byte>, comp: nat, left: nat, r: bool, p: Pixel)
    ensures Pixels(t, comp, left, 0, r, p) == Pixels(t, comp, left, 0, false, Pixel([]))
  {
  }

  /** The rest of a raw packet. */
  lemma {:induction false} RawReads(pixels: seq<Pixel>, t: seq<byte>, comp: nat, left: nat, total: nat, last: Pixel)
    requires ArePixels(pixels, comp) && total == |pixels| + left
    ensures Pixels(Bytes(pixels) + t, comp, total, |pixels|, false, last)
         == SwapAll(pixels) + Pixels(t, comp, left, 0, false, Pixel([]))
    decreases |pixels|
  {
    var after := Pixels(t, comp, left, 0, false, Pixel([]));
    if pixels == [] {
      assert Bytes(pixels) + t == t && SwapAll(pixels) + after == after;
      BetweenPackets(t, comp, left, false, last);
    } else {
      var p, rest := Swapped(pixels[0]), pixels[1..];
      RawReads(rest, t, comp, left, total - 1, p);
      BytesUnfold(pixels, p, rest, t);
      RawStep(p, Bytes(rest) + t, comp, total, |pixels|, last, SwapAll(rest) + after);
      SwapAllCons(pixels, after);
    }
  }

  lemma BytesUnfold(pixels: seq<Pixel>, p: Pixel, rest: seq<Pixel>, t: seq<byte>)
    requires pixels != [] && p == Swapped(pixels[0]) && rest == pixels[1..]
    ensures Bytes(pixels) + t == p.b + (Bytes(rest) + t)
  {
    Associates(p.b, Bytes(rest), t);
  }

  lemma RawStep(p: Pixel, t: seq<byte>, comp: nat, total: nat, count: nat, last: Pixel, next: seq<Pixel>)
    requires |p.b| == comp && 0 < total && 0 < count && next == Pixels(t, comp, total - 1, count - 1, false, p)
    ensures Pixels(p.b + t, comp, total, count, false, last) == [p] + next
  {
    PixelReads(p, t);
    assert Next(p.b + t, comp, count, false, last) == Turn(p, t, count - 1, false);
  }

  /** The rest of a run. */
  lemma {:induction false} RunReads(p: Pixel, n: nat, t: seq<byte>, comp: nat, left: nat, total: nat)
    requires total == n + left
    ensures Pixels(t, comp, total, n, true, p) == Repeat(p, n) + Pixels(t, comp, left, 0, false, Pixel([]))
    decreases n
  {
    var after := Pixels(t, comp, left, 0, false, Pixel([]));
    if n == 0 {
      BetweenPackets(t, comp, left, true, p);
      assert Repeat(p, 0) + after == after;
    } else {
      RunReads(p, n - 1, t, comp, left, total - 1);
      assert Next(t, comp, n, true, p) == Turn(p, t, n - 1, true);
      RepeatCons(p, n, after);
    }
  }

  /** A command and its first pixel, then the rest of the packet. */
  lemma CommandReads(file: seq<byte>, cmd: byte, count: nat, repeating: bool, p: Pixel, t: seq<byte>, comp: nat,
                     total: nat, next: seq<Pixel>)
    requires |p.b| == comp && count < 128 && cmd == count + if repeating then 128 else 0
    requires file == [cmd] + (p.b + t) && 0 < total && next == Pixels(t, comp, total - 1, count, repeating, p)
    ensures Pixels(file, comp, total, 0, false, Pixel([])) == [p] + next
  {
    assert file[1..] == p.b + t;
    PixelReads(p, t);
    assert Next(file, comp, 0, false, Pixel([])) == Turn(p, t, count, repeating);
  }

  lemma RawLayout(cmd: byte, pixels: seq<Pixel>, t: seq<byte>)
    requires pixels != []
    ensures ([cmd] + Bytes(pixels)) + t == [cmd] + (Swapped(pixels[0]).b + (Bytes(pixels[1..]) + t))
  {
    Associates([cmd], Bytes(pixels), t);
    Associates(Swapped(pixels[0]).b, Bytes(pixels[1..]), t);
  }

  lemma RawPacketReads(file: seq<byte>, pixels: seq<Pixel>, t: seq<byte>, comp: nat, left: nat, total: nat,
                       after: seq<Pixel>)
    requires ArePixels(pixels, comp) && 1 <= |pixels| <= 128 && total == |pixels| + left
    requires file == [|pixels| - 1] + (Swapped(pixels[0]).b + (Bytes(pixels[1..]) + t))
    requires after == Pixels(t, comp, left, 0, false, Pixel([]))
    ensures Pixels(file, comp, total, 0, false, Pixel([])) == SwapAll(pixels) + after
  {
    RawPacketRest(file, Swapped(pixels[0]), pixels[1..], |pixels| - 1, t, comp, left, total, after);
    SwapAllCons(pixels, after);
  }

  lemma SwapAllCons(pixels: seq<Pixel>, rest: seq<Pixel>)
    requires pixels != []
    ensures [Swapped(pixels[0])] + (SwapAll(pixels[1..]) + rest) == SwapAll(pixels) + rest
  {
    Associates([Swapped(pixels[0])], SwapAll(pixels[1..]), rest);
  }

  lemma RawPacketRest(file: seq<byte>, p: Pixel, rest: seq<Pixel>, cmd: byte, t: seq<byte>, comp: nat, left: nat,
                      total: nat, after: seq<Pixel>)
    requires total == |rest| + left + 1 && |p.b| == comp && ArePixels(rest, comp) && |rest| == cmd < 128
    requires file == [cmd] + (p.b + (Bytes(rest) + t))
    requires after == Pixels(t, comp, left, 0, false, Pixel([]))
    ensures Pixels(file, comp, total, 0, false, Pixel([])) == [p] + (SwapAll(rest) + after)
  {
    RawReads(rest, t, comp, left, total - 1, p);
    CommandReads(file, cmd, |rest|, false, p, Bytes(rest) + t, comp, total, SwapAll(rest) + after);
  }

  lemma RunPacketReads(file: seq<byte>, pixel: Pixel, n: nat, t: seq<byte>, comp: nat, left: nat, total: nat,
                       after: seq<Pixel>)
    requires total == n + left && |pixel.b| == comp && 1 <= n <= 128 && file == [n + 127] + (Swapped(pixel).b + t)
    requires after == Pixels(t, comp, left, 0, false, Pixel([]))
    ensures Pixels(file, comp, total, 0, false, Pixel([])) == SwapAll(Repeat(pixel, n)) + after
  {
    SwapAllRepeat(pixel, n);
    RunPacketRest(file, Swapped(pixel), n - 1, t, comp, left, total, after);
    RepeatCons(Swapped(pixel), n, after);
  }

  lemma RunPacketRest(file: seq<byte>, q: Pixel, n: nat, t: seq<byte>, comp: nat, left: nat, total: nat,
                      after: seq<Pixel>)
    requires total == n + left + 1 && |q.b| == comp && n < 128 && file == [n + 128] + (q.b + t)
    requires after == Pixels(t, comp, left, 0, false, Pixel([]))
    ensures Pixels(file, comp, total, 0, false, Pixel([])) == [q] + (Repeat(q, n) + after)
  {
    RunReads(q, n, t, comp, left, total - 1);
    CommandReads(file, n + 128, n, true, q, t, comp, total, Repeat(q, n) + after);
  }

  lemma RepeatCons(q: Pixel, n: nat, rest: seq<Pixel>)
    requires n > 0
    ensures [q] + (Repeat(q, n - 1) + rest) == Repeat(q, n) + rest
  {
    Associates([q], Repeat(q, n - 1), rest);
  }

  /** One packet is read as the pixels it stands for, with red and blue still in the file's places. */
  lemma PacketReads(p: Packet, t: seq<byte>, comp: nat, left: nat, total: nat)
    requires IsPacket(p, comp) && total == |Plain(p)| + left
    ensures Pixels(Coded(p, comp) + t, comp, total, 0, false, Pixel([]))
         == SwapAll(Plain(p)) + Pixels(t, comp, left, 0, false, Pixel([]))
  {
    var file, after := Coded(p, comp) + t, Pixels(t, comp, left, 0, false, Pixel([]));
    CodedLayout(p, t, comp);
    match p
    case Raw(pixels) => RawPacketReads(file, pixels, t, comp, left, total, after);
    case Run(n, pixel) => RunPacketReads(file, pixel, n, t, comp, left, total, after);
  }

  lemma CodedLayout(p: Packet, t: seq<byte>, comp: nat)
    requires IsPacket(p, comp)
    ensures match p
            case Raw(pixels) => Coded(p, comp) + t == [|pixels| - 1] + (Swapped(pixels[0]).b + (Bytes(pixels[1..]) + t))
            case Run(n, pixel) => Coded(p, comp) + t == [n + 127] + (Swapped(pixel).b + t)
  {
    if p.Raw? {
      RawLayout(|p.pixels| - 1, p.pixels, t);
    } else {
      Associates([p.n + 127], Swapped(p.pixel).b, t);
    }
  }

  /** Whatever packets stand for some pixels, reading them gives those pixels. */
  lemma {:induction false} PacketsRead(ps: seq<Packet>, comp: nat, total: nat)
    requires ArePackets(ps, comp) && total == |AllPlain(ps)|
    ensures Pixels(AllCoded(ps, comp), comp, total, 0, false, Pixel([])) == SwapAll(AllPlain(ps))
    decreases |ps|
  {
    if ps != [] {
      PacketsRead(ps[1..], comp, |AllPlain(ps[1..])|);
      PacketThen(ps[0], AllCoded(ps[1..], comp), AllPlain(ps[1..]), comp, total);
    }
  }

  lemma PacketThen(p: Packet, t: seq<byte>, plain: seq<Pixel>, comp: nat, total: nat)
    requires IsPacket(p, comp) && Pixels(t, comp, |plain|, 0, false, Pixel([])) == SwapAll(plain)
    requires total == |Plain(p) + plain|
    ensures Pixels(Coded(p, comp) + t, comp, total, 0, false, Pixel([])) == SwapAll(Plain(p) + plain)
  {
    PacketReads(p, t, comp, |plain|, total);
    SwapAllAppend(Plain(p), plain);
  }

  lemma {:induction false} SwapAllAppend(a: seq<Pixel>, b: seq<Pixel>)
    ensures SwapAll(a + b) == SwapAll(a) + SwapAll(b)
  {
    if a == [] {
      assert a + b == b && SwapAll(a) + SwapAll(b) == SwapAll(b);
    } else {
      SwapAllAppend(a[1..], b);
      assert (a + b)[1..] == a[1..] + b;
      Associates([Swapped(a[0])], SwapAll(a[1..]), SwapAll(b));
    }
  }
}
