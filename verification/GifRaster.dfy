/** What the raster decoder promises by the textbook: the strings of GIF89a's LZW, painted pixel by pixel. */
module GifRaster {
  import opened Bits
  import opened ByteReader
  import opened GifLzw
  import opened GifTextbook
  import opened Gif

  /** For the code sizes of the standard a raster gives the strings of the textbook decoder; it is complete
  exactly when they end without an error and no run of codes for strings is too long for the code table. */
  lemma RasterIsTextbook(s: seq<byte>, pos: nat)
    requires 2 <= At(s, pos) <= 8
    ensures var raster, cs, payload := Raster(s, pos), At(s, pos), Payload(s, Skip(s, pos, 1), 0);
            var story := Textbook(cs, Val(payload), 8 * |payload|);
            && (raster.result == Complete <==> story.fine && story.longest < TooLong(cs))
            && (raster.result == Wrong(TooManyCodes) <==> story.longest >= TooLong(cs))
            && (story.longest < TooLong(cs) ==> raster.word == story.word) && raster.word <= story.word
  {
    var payload := Payload(s, Skip(s, pos, 1), 0);
    DecoderIsTextbook(At(s, pos), Val(payload), 8 * |payload|);
  }

  // ----- A raster that the decoder refuses -----

  /** The payload in data blocks of at most 255 bytes, and the empty block. */
  function Blocked(payload: seq<byte>): (s: seq<byte>)
    decreases |payload|
  {
    if payload == [] then [0] else
      var n := if |payload| < 256 then |payload| else 255;
      [n] + (payload[..n] + Blocked(payload[n..]))
  }

  lemma {:induction false} BlockIsRead(s: seq<byte>, pos: nat, block: seq<byte>)
    requires StandsAt(s, pos, block)
    ensures Payload(s, pos, |block|) == block + Payload(s, pos + |block|, 0)
    decreases |block|
  {
    if block == [] {
      assert block + Payload(s, pos, 0) == Payload(s, pos, 0);
    } else {
      assert s[pos] == block[0];
      BlockIsRead(s, pos + 1, block[1..]);
      assert block == [block[0]] + block[1..];
    }
  }

  /** Data blocks are read as what was put into them. */
  lemma {:induction false} BlocksAreRead(s: seq<byte>, pos: nat, payload: seq<byte>)
    requires StandsAt(s, pos, Blocked(payload))
    ensures Payload(s, pos, 0) == payload
    decreases |payload|
  {
    if payload == [] {
      assert s[pos] == Blocked(payload)[0];
    } else {
      var n := if |payload| < 256 then |payload| else 255;
      var first, rest := payload[..n], payload[n..];
      StandsAppend(s, pos, [n], first + Blocked(rest));
      StandsAppend(s, pos + 1, first, Blocked(rest));
      assert s[pos] == [n][0];
      BlockIsRead(s, pos + 1, first);
      BlocksAreRead(s, pos + 1 + n, rest);
      assert payload == first + rest;
    }
  }

  function Zeros(n: nat): (s: seq<byte>)
    ensures |s| == n
  {
    if n == 0 then [] else [0] + Zeros(n - 1)
  }

  lemma {:induction false} ValOfZeros(n: nat)
    ensures Val(Zeros(n)) == 0
  {
    if n > 0 {
      ValOfZeros(n - 1);
      ValOfOne(0, Zeros(n - 1));
    }
  }

  lemma ValOfOne(b: byte, zeros: seq<byte>)
    requires Val(zeros) == 0
    ensures Val([b] + zeros) == b
  {
    assert Pow2(8) == 256;
    JoinZero(b, 8);
    LowSmall(b, 8);
  }

  lemma ValOfTwo(low: byte, high: byte, zeros: seq<byte>)
    requires Val(zeros) == 0
    ensures Val([low] + ([high] + zeros)) == low + 256 * high
  {
    assert Pow2(8) == 256;
    ValOfOne(high, zeros);
    JoinIsOr(low, 8, high);
    ShlIsProduct(high, 8);
  }

  /** A clear code and zeros. */
  function LongRun(cs: nat): (payload: seq<byte>)
    requires cs <= 8
    ensures |payload| == 12291
  {
    Pow2Monotone(cs, 8);
    assert Pow2(8) == 256;
    [Clear(cs) % 256] + ([Clear(cs) / 256] + Zeros(12289))
  }

  lemma LongRunIs(cs: nat)
    requires cs <= 8
    ensures Val(LongRun(cs)) == Clear(cs)
  {
    Pow2Monotone(cs, 8);
    assert Pow2(8) == 256;
    ValOfZeros(12289);
    ValOfTwo(Clear(cs) % 256, Clear(cs) / 256, Zeros(12289));
  }

  /** A raster of a clear code and 8192 times the first string, which the textbook decodes and the program refuses. */
  lemma RasterRefusesLongRun(cs: byte)
    requires 2 <= cs <= 8
    ensures var s := [cs] + Blocked(LongRun(cs));
            && Payload(s, 1, 0) == LongRun(cs) && Textbook(cs, Val(LongRun(cs)), 8 * 12291).fine
            && Raster(s, 0).result == Wrong(TooManyCodes)
  {
    var s := [cs] + Blocked(LongRun(cs));
    BlocksAreRead(s, 1, LongRun(cs));
    LongRunIs(cs);
    DecoderRefusesLongRun(cs, 8 * 12291);
    RasterIsTextbook(s, 0);
  }
}
