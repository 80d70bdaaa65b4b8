/** Encoders of GIF's LZW. An encoder keeps the dictionary that Appendix F of the GIF89a specification prescribes and
sends, at each turn, the code of any string of it that the data go on with, or a clear code; whichever it chooses, the
decoder gives the data back. */
module GifEncoder {
  import opened Bits
  import opened ByteReader
  import opened GifLzw
  import opened GifTextbook
  import opened Gif
  import opened GifRaster

  datatype Op = Reset | Send(code: nat)

  /** The strings added since the last clear code, and the last string that was sent (none: []). */
  datatype Coder = Coder(added: seq<seq<byte>>, last: seq<byte>)

  const Fresh := Coder([], [])

  predicate IsCoder(cs: nat, c: Coder) {
    NoEmpty(c.added) && Pow2(cs) + 2 + |c.added| <= 4096 && (c.last == [] ==> c.added == [])
  }

  /** With the next byte of the data the last string becomes a new one, until there are 4096 numbers. */
  function Learned(cs: nat, c: Coder, next: byte): seq<seq<byte>> {
    if c.last == [] || Pow2(cs) + 2 + |c.added| == 4096 then c.added else c.added + [c.last + [next]]
  }

  /** The numbers of single bytes come first, then the clear code and the end code, then the strings. */
  predicate IsNumber(cs: nat, added: seq<seq<byte>>, code: nat) {
    code < Pow2(cs) || Pow2(cs) + 2 <= code < Pow2(cs) + 2 + |added|
  }

  function StringOf(cs: nat, added: seq<seq<byte>>, code: nat): seq<byte>
    requires cs <= 8 && IsNumber(cs, added, code)
  {
    BytesOnly(cs);
    if code < Pow2(cs) then [code] else added[code - Pow2(cs) - 2]
  }

  lemma BytesOnly(cs: nat)
    requires cs <= 8
    ensures Pow2(cs) <= 256
  {
    Pow2Monotone(cs, 8);
    assert Pow2(8) == 256;
  }

  /** The data go on with the string of this code. */
  predicate CanSend(cs: nat, c: Coder, code: nat, data: seq<byte>)
    requires cs <= 8
  {
    data != [] && IsNumber(cs, Learned(cs, c, data[0]), code) && StringOf(cs, Learned(cs, c, data[0]), code) <= data
  }

  function Sent(cs: nat, c: Coder, code: nat, data: seq<byte>): Coder
    requires cs <= 8 && CanSend(cs, c, code, data)
  {
    Coder(Learned(cs, c, data[0]), StringOf(cs, Learned(cs, c, data[0]), code))
  }

  /** From here on the data are sent so. */
  predicate AreOps(cs: nat, c: Coder, ops: seq<Op>, data: seq<byte>)
    requires cs <= 8
    decreases |ops|
  {
    if ops == [] then data == []
    else if ops[0].Reset? then AreOps(cs, Fresh, ops[1..], data)
    else
      CanSend(cs, c, ops[0].code, data)
      && var c' := Sent(cs, c, ops[0].code, data); AreOps(cs, c', ops[1..], data[|c'.last|..])
  }

  /** A code takes as many bits as the number that the next string gets, or the last one in a full dictionary. */
  function CodeWidth(cs: nat, c: Coder): nat {
    var next := Pow2(cs) + 2 + |c.added|;
    BitLength(if next < 4096 then next else 4095)
  }

  /** The codes one after the other, and the end code. */
  function OpsBits(cs: nat, c: Coder, ops: seq<Op>, data: seq<byte>): Code
    requires cs <= 8 && AreOps(cs, c, ops, data)
    decreases |ops|
  {
    if ops == [] then Code(Pow2(cs) + 1, CodeWidth(cs, c))
    else if ops[0].Reset? then Cat(Code(Pow2(cs), CodeWidth(cs, c)), OpsBits(cs, Fresh, ops[1..], data))
    else
      var c' := Sent(cs, c, ops[0].code, data);
      Cat(Code(ops[0].code, CodeWidth(cs, c)), OpsBits(cs, c', ops[1..], data[|c'.last|..]))
  }

  /** The most strings that are sent without a clear code between them, when some have been. */
  function Longest(ops: seq<Op>, run: nat): nat
    decreases |ops|
  {
    if ops == [] then run
    else Max(run, Longest(ops[1..], if ops[0].Reset? then 0 else run + 1))
  }

  // ----- One code -----

  lemma {:induction false} BitLengthHolds(n: nat)
    ensures n < Pow2(BitLength(n))
  {
    if n > 0 {
      BitLengthHolds(n / 2);
    }
  }

  lemma WidthIs(cs: nat, c: Coder, run: nat, started: bool)
    requires 2 <= cs <= 8 && IsCoder(cs, c)
    ensures var t := Text(c.added, c.last, started, run); IsText(cs, t) && Width(cs, t) == CodeWidth(cs, c)
  {
    assert Pow2(11) == 2048 && Pow2(12) == 4096 by { PowersUpToTwelve(); }
    BitLengthIs(4095, 12);
  }

  /** A code of the dictionary fits its bits. */
  lemma CodeFits(cs: nat, c: Coder, code: nat)
    requires IsCoder(cs, c) && (code < Pow2(cs) + 2 + |c.added| || (code == Pow2(cs) + 2 + |c.added| && code < 4096))
    ensures code < Pow2(CodeWidth(cs, c))
  {
    var next := Pow2(cs) + 2 + |c.added|;
    BitLengthHolds(if next < 4096 then next else 4095);
  }

  lemma SentIsCoder(cs: nat, c: Coder, code: nat, data: seq<byte>)
    requires cs <= 8 && IsCoder(cs, c) && CanSend(cs, c, code, data)
    ensures IsCoder(cs, Sent(cs, c, code, data)) && Sent(cs, c, code, data).last != []
    ensures code < Pow2(CodeWidth(cs, c))
  {
    CodeFits(cs, c, code);
  }

  /** The string of a code in both dictionaries. */
  lemma SameString(cs: nat, added: seq<seq<byte>>, code: nat)
    requires cs <= 8 && IsNumber(cs, added, code)
    ensures IsLive(cs, added, code) && WordOf(cs, added, code) == StringOf(cs, added, code)
  {
    BytesOnly(cs);
  }

  /** A string that the decoder already has. */
  lemma OldReads(cs: nat, c: Coder, code: nat, data: seq<byte>, run: nat, word: seq<byte>)
    requires 2 <= cs <= 8 && IsCoder(cs, c) && CanSend(cs, c, code, data) && IsNumber(cs, c.added, code)
    requires word == Sent(cs, c, code, data).last && IsText(cs, Text(c.added, c.last, true, run))
    ensures Read(cs, Text(c.added, c.last, true, run), code)
         == On(Text(Learned(cs, c, data[0]), word, true, run + 1), word)
  {
    SameString(cs, c.added, code);
    assert word != [] && word[0] == data[0];
  }

  /** The string that the decoder is about to learn: it goes on with its own first byte. */
  lemma NewReads(cs: nat, c: Coder, code: nat, data: seq<byte>, run: nat, word: seq<byte>)
    requires 2 <= cs <= 8 && IsCoder(cs, c) && CanSend(cs, c, code, data) && !IsNumber(cs, c.added, code)
    requires word == Sent(cs, c, code, data).last && IsText(cs, Text(c.added, c.last, true, run))
    ensures Read(cs, Text(c.added, c.last, true, run), code)
         == On(Text(Learned(cs, c, data[0]), word, true, run + 1), word)
  {
    assert word == c.last + [data[0]];
    assert word[0] == data[0];
  }

  /** The decoder, which has not yet seen the byte that the encoder knows, takes the code for the same string and adds
  the same one to its dictionary. */
  lemma SendReads(cs: nat, c: Coder, code: nat, data: seq<byte>, run: nat)
    requires 2 <= cs <= 8 && IsCoder(cs, c) && CanSend(cs, c, code, data)
    ensures IsText(cs, Text(c.added, c.last, true, run))
    ensures var c' := Sent(cs, c, code, data);
            Read(cs, Text(c.added, c.last, true, run), code) == On(Text(c'.added, c'.last, true, run + 1), c'.last)
  {
    WidthIs(cs, c, run, true);
    if IsNumber(cs, c.added, code) {
      OldReads(cs, c, code, data, run, Sent(cs, c, code, data).last);
    } else {
      NewReads(cs, c, code, data, run, Sent(cs, c, code, data).last);
    }
  }

  // ----- All codes -----

  lemma FirstCode(code: nat, width: nat, more: Code, rest: nat)
    requires code < Pow2(width)
    ensures var r := Before(Cat(Code(code, width), more), rest);
            Low(r, width) == code && Drop(r, width) == Before(more, rest)
  {
    BeforeCat(Code(code, width), more, rest);
    JoinSplit(code, width, Before(more, rest));
    LowSmall(code, width);
  }

  lemma OneCode(code: nat, width: nat, rest: nat)
    requires code < Pow2(width)
    ensures Low(Before(Code(code, width), rest), width) == code
  {
    JoinSplit(code, width, rest);
    LowSmall(code, width);
  }

  lemma EndIsTold(cs: nat, t: Text, r: nat, n: nat, width: nat)
    requires IsText(cs, t) && Width(cs, t) == width <= n && Low(r, width) == Pow2(cs) + 1
    ensures Tell(cs, t, r, n) == Story([], true, t.run)
  {
  }

  lemma ResetUnfold(cs: nat, c: Coder, ops: seq<Op>, data: seq<byte>, more: seq<Op>, run: nat)
    requires cs <= 8 && ops != [] && ops[0].Reset? && AreOps(cs, c, ops, data) && more == ops[1..]
    ensures AreOps(cs, Fresh, more, data) && Longest(ops, run) == Max(run, Longest(more, 0))
    ensures OpsBits(cs, c, ops, data) == Cat(Code(Pow2(cs), CodeWidth(cs, c)), OpsBits(cs, Fresh, more, data))
  {
  }

  lemma SendUnfold(cs: nat, c: Coder, ops: seq<Op>, data: seq<byte>, code: nat, c': Coder, more: seq<Op>,
                   rest: seq<byte>, run: nat)
    requires cs <= 8 && ops != [] && ops[0] == Send(code) && AreOps(cs, c, ops, data) && more == ops[1..]
    requires CanSend(cs, c, code, data) && c' == Sent(cs, c, code, data) && rest == data[|c'.last|..]
    ensures AreOps(cs, c', more, rest) && Longest(ops, run) == Max(run, Longest(more, run + 1))
    ensures OpsBits(cs, c, ops, data) == Cat(Code(code, CodeWidth(cs, c)), OpsBits(cs, c', more, rest))
  {
  }

  /** Whatever the encoder chose to send is told as the data. */
  lemma {:induction false} SentIsTold(cs: nat, c: Coder, ops: seq<Op>, data: seq<byte>, run: nat, rest: nat, n: nat)
    requires 2 <= cs <= 8 && IsCoder(cs, c) && AreOps(cs, c, ops, data) && OpsBits(cs, c, ops, data).len <= n
    ensures IsText(cs, Text(c.added, c.last, true, run))
    ensures Tell(cs, Text(c.added, c.last, true, run), Before(OpsBits(cs, c, ops, data), rest), n)
         == Story(data, true, Longest(ops, run))
    decreases |ops|
  {
    var width := CodeWidth(cs, c);
    WidthIs(cs, c, run, true);
    if ops == [] {
      CodeFits(cs, c, Pow2(cs) + 1);
      OneCode(Pow2(cs) + 1, width, rest);
      EndIsTold(cs, Text(c.added, c.last, true, run), Before(Code(Pow2(cs) + 1, width), rest), n, width);
    } else if ops[0].Reset? {
      ResetUnfold(cs, c, ops, data, ops[1..], run);
      SentIsTold(cs, Fresh, ops[1..], data, 0, rest, n - width);
      CodeFits(cs, c, Pow2(cs));
      TurnTold(cs, Text(c.added, c.last, true, run), Text([], [], true, 0), Pow2(cs), width,
               OpsBits(cs, Fresh, ops[1..], data), rest, n, data, data, Longest(ops[1..], 0));
    } else {
      var code := ops[0].code;
      var c' := Sent(cs, c, code, data);
      SentIsCoder(cs, c, code, data);
      SendUnfold(cs, c, ops, data, code, c', ops[1..], data[|c'.last|..], run);
      SentIsTold(cs, c', ops[1..], data[|c'.last|..], run + 1, rest, n - width);
      SendReads(cs, c, code, data, run);
      TurnTold(cs, Text(c.added, c.last, true, run), Text(c'.added, c'.last, true, run + 1), code, width,
               OpsBits(cs, c', ops[1..], data[|c'.last|..]), rest, n, data, data[|c'.last|..],
               Longest(ops[1..], run + 1));
    }
  }

  /** One code, and the rest of the story. */
  lemma TurnTold(cs: nat, t: Text, next: Text, code: nat, width: nat, more: Code, rest: nat, n: nat, data: seq<byte>,
                 left: seq<byte>, longest: nat)
    requires IsText(cs, t) && IsText(cs, next) && Width(cs, t) == width <= n && code < Pow2(width)
    requires Read(cs, t, code) == On(next, next.last) && data == next.last + left
    requires Tell(cs, next, Before(more, rest), n - width) == Story(left, true, longest)
    ensures Tell(cs, t, Before(Cat(Code(code, width), more), rest), n) == Story(data, true, Max(t.run, longest))
  {
    FirstCode(code, width, more, rest);
    TellNext(cs, t, Before(Cat(Code(code, width), more), rest), n, width, next, next.last, Story(left, true, longest));
  }

  // ----- A raster -----

  /** A raster begins with a clear code. */
  function RasterBits(cs: nat, ops: seq<Op>, data: seq<byte>): Code
    requires cs <= 8 && AreOps(cs, Fresh, ops, data)
  {
    Cat(Code(Pow2(cs), cs + 1), OpsBits(cs, Fresh, ops, data))
  }

  lemma FirstWidth(cs: nat)
    requires 2 <= cs <= 8
    ensures IsCoder(cs, Fresh) && CodeWidth(cs, Fresh) == cs + 1
  {
    BytesOnly(cs);
    Pow2Monotone(2, cs);
    assert Pow2(2) == 4 && Pow2(cs + 1) == 2 * Pow2(cs);
    BitLengthIs(Pow2(cs) + 2, cs + 1);
  }

  lemma RasterIsTold(cs: nat, ops: seq<Op>, data: seq<byte>, rest: nat, n: nat)
    requires 2 <= cs <= 8 && AreOps(cs, Fresh, ops, data) && RasterBits(cs, ops, data).len <= n
    ensures Textbook(cs, Before(RasterBits(cs, ops, data), rest), n) == Story(data, true, Longest(ops, 0))
  {
    FirstWidth(cs);
    SentIsTold(cs, Fresh, ops, data, 0, rest, n - (cs + 1));
    WidthIs(cs, Fresh, 0, false);
    CodeFits(cs, Fresh, Pow2(cs));
    TurnTold(cs, Text([], [], false, 0), Text([], [], true, 0), Pow2(cs), cs + 1, OpsBits(cs, Fresh, ops, data), rest,
             n, data, data, Longest(ops, 0));
  }

  /** Whatever an encoder sends for some data, in data blocks and with any bits after the end code: the program's raster
  decoder gives the data back, exactly when there are fewer than 8192 less the clear code strings between any two clear
  codes; otherwise it refuses the raster after a first part of the data. */
  lemma EncodedRasterReads(s: seq<byte>, pos: nat, ops: seq<Op>, data: seq<byte>, payload: seq<byte>, rest: nat)
    requires 2 <= At(s, pos) <= 8 && pos < |s| && AreOps(At(s, pos), Fresh, ops, data)
    requires StandsAt(s, pos + 1, Blocked(payload))
    requires Val(payload) == Before(RasterBits(At(s, pos), ops, data), rest)
    requires RasterBits(At(s, pos), ops, data).len <= 8 * |payload|
    ensures var raster := Raster(s, pos);
            if Longest(ops, 0) < 8192 - Pow2(At(s, pos)) then raster.result == Complete && raster.word == data
            else raster.result == Wrong(TooManyCodes) && raster.word <= data
  {
    BlocksAreRead(s, pos + 1, payload);
    RasterIsTold(At(s, pos), ops, data, rest, 8 * |payload|);
    RasterIsTextbook(s, pos);
  }

  // ----- A clear code in time -----

  predicate IsFull(cs: nat, c: Coder) {
    Pow2(cs) + 2 + |c.added| >= 4096
  }

  /** No string is sent with a full dictionary. */
  predicate AreTimely(cs: nat, c: Coder, ops: seq<Op>, data: seq<byte>)
    requires cs <= 8 && AreOps(cs, c, ops, data)
    decreases |ops|
  {
    if ops == [] then true
    else if ops[0].Reset? then AreTimely(cs, Fresh, ops[1..], data)
    else
      var c' := Sent(cs, c, ops[0].code, data);
      !IsFull(cs, c) && AreTimely(cs, c', ops[1..], data[|c'.last|..])
  }

  /** A run is at most one string longer than what was learned on it. */
  predicate RunIs(c: Coder, run: nat) {
    run <= |c.added| + 1 && (c.last == [] ==> run == 0)
  }

  lemma FreshIsCoder(cs: nat)
    requires cs <= 8
    ensures IsCoder(cs, Fresh) && !IsFull(cs, Fresh)
  {
    BytesOnly(cs);
  }

  lemma RunGrows(cs: nat, c: Coder, code: nat, data: seq<byte>, run: nat)
    requires cs <= 8 && IsCoder(cs, c) && CanSend(cs, c, code, data) && RunIs(c, run) && !IsFull(cs, c)
    ensures RunIs(Sent(cs, c, code, data), run + 1)
  {
    SentIsCoder(cs, c, code, data);
  }

  lemma {:induction false} TimelyIsShort(cs: nat, c: Coder, ops: seq<Op>, data: seq<byte>, run: nat)
    requires cs <= 8 && IsCoder(cs, c) && RunIs(c, run) && AreOps(cs, c, ops, data) && AreTimely(cs, c, ops, data)
    ensures Longest(ops, run) < 4096 - Pow2(cs)
    decreases |ops|
  {
    if ops != [] && ops[0].Reset? {
      FreshIsCoder(cs);
      TimelyIsShort(cs, Fresh, ops[1..], data, 0);
    } else if ops != [] {
      var c' := Sent(cs, c, ops[0].code, data);
      SentIsCoder(cs, c, ops[0].code, data);
      RunGrows(cs, c, ops[0].code, data, run);
      TimelyIsShort(cs, c', ops[1..], data[|c'.last|..], run + 1);
    }
  }

  // ----- The longest string each time -----

  /** The number of the longest string that the data begin with, among the single bytes and the first k added strings;
  the first of equally long ones. */
  function Longer(cs: nat, added: seq<seq<byte>>, data: seq<byte>, k: nat): (code: nat)
    requires cs <= 8 && data != [] && data[0] < Pow2(cs) && k <= |added|
    ensures IsNumber(cs, added[..k], code) && IsNumber(cs, added, code) && StringOf(cs, added, code) <= data
  {
    if k == 0 then data[0] else
      var code := Longer(cs, added, data, k - 1);
      if added[k - 1] <= data && |StringOf(cs, added, code)| < |added[k - 1]| then Pow2(cs) + 1 + k else code
  }

  /** All bytes have a number of their own. */
  predicate HasSingles(cs: nat, data: seq<byte>) {
    forall i :: 0 <= i < |data| ==> data[i] < Pow2(cs)
  }

  function BestCode(cs: nat, c: Coder, data: seq<byte>): (code: nat)
    requires cs <= 8 && data != [] && HasSingles(cs, data)
    ensures CanSend(cs, c, code, data)
  {
    var added := Learned(cs, c, data[0]);
    Longer(cs, added, data, |added|)
  }

  /** An encoder after the standard: always the longest string, and a clear code when the dictionary is full. */
  function Standard(cs: nat, c: Coder, data: seq<byte>): (ops: seq<Op>)
    requires cs <= 8 && IsCoder(cs, c) && HasSingles(cs, data)
    ensures AreOps(cs, c, ops, data) && AreTimely(cs, c, ops, data)
    decreases |data|, if IsFull(cs, c) then 1 else 0
  {
    BytesOnly(cs);
    if data == [] then []
    else if IsFull(cs, c) then
      var more := Standard(cs, Fresh, data);
      ResetFirst(cs, c, more, data);
      [Reset] + more
    else
      var code := BestCode(cs, c, data);
      SentIsCoder(cs, c, code, data);
      var c' := Sent(cs, c, code, data);
      var more := Standard(cs, c', data[|c'.last|..]);
      SendFirst(cs, c, code, c', more, data);
      [Send(code)] + more
  }

  lemma ResetFirst(cs: nat, c: Coder, more: seq<Op>, data: seq<byte>)
    requires cs <= 8 && AreOps(cs, Fresh, more, data) && AreTimely(cs, Fresh, more, data)
    ensures AreOps(cs, c, [Reset] + more, data) && AreTimely(cs, c, [Reset] + more, data)
  {
    assert ([Reset] + more)[1..] == more;
  }

  lemma SendFirst(cs: nat, c: Coder, code: nat, c': Coder, more: seq<Op>, data: seq<byte>)
    requires cs <= 8 && CanSend(cs, c, code, data) && c' == Sent(cs, c, code, data)
    requires !IsFull(cs, c) && AreOps(cs, c', more, data[|c'.last|..]) && AreTimely(cs, c', more, data[|c'.last|..])
    ensures AreOps(cs, c, [Send(code)] + more, data) && AreTimely(cs, c, [Send(code)] + more, data)
  {
    assert ([Send(code)] + more)[1..] == more;
  }

  /** For all data in bytes below the clear code, the program reads what this encoder writes. */
  lemma StandardRasterReads(s: seq<byte>, pos: nat, data: seq<byte>, payload: seq<byte>, rest: nat)
    requires 2 <= At(s, pos) <= 8 && pos < |s| && HasSingles(At(s, pos), data)
    requires StandsAt(s, pos + 1, Blocked(payload))
    requires IsCoder(At(s, pos), Fresh)
    requires var bits := RasterBits(At(s, pos), Standard(At(s, pos), Fresh, data), data);
             Val(payload) == Before(bits, rest) && bits.len <= 8 * |payload|
    ensures Raster(s, pos).result == Complete && Raster(s, pos).word == data
  {
    var cs := At(s, pos);
    TimelyIsShort(cs, Fresh, Standard(cs, Fresh, data), data, 0);
    EncodedRasterReads(s, pos, Standard(cs, Fresh, data), data, payload, rest);
  }
}
