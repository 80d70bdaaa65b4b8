/** How much the compressor can expand its input. */
module ZlibSize {
  import opened Bits
  import opened Lz77
  import opened FixedCode
  import opened Deflate

  lemma ExtraBounds(j: nat)
    ensures j < |LENGTH_EXTRA| ==> LENGTH_EXTRA[j] <= 5
    ensures j < |DISTANCE_EXTRA| ==> DISTANCE_EXTRA[j] <= 13
  {
  }

  /** A token takes at most eleven bits for each byte it stands for. */
  lemma TokenSize(t: Token, c: Code, out: seq<byte>)
    requires IsToken(t, |out|) && IsTokenCode(t, c)
    ensures |Expand(out, t)| > |out| && c.len <= 11 * (|Expand(out, t)| - |out|)
  {
    match t {
      case Literal(b) => {
      }
      case Match(length, distance) => {
        var j, k :| InSlot(LENGTH_LIMITS, j, length) && InSlot(DISTANCE_LIMITS, k, distance)
          && c == MatchCode(j, length, k, distance);
        ExtraBounds(j);
        ExtraBounds(k);
      }
    }
  }

  lemma {:induction false} TokensSize(ts: seq<Token>, cs: seq<Code>, out: seq<byte>)
    requires AreTokens(ts, out) && AreTokenCodes(ts, cs)
    ensures |out| <= |ExpandAll(out, ts)| && Concat(cs).len <= 11 * (|ExpandAll(out, ts)| - |out|)
    decreases |ts|
  {
    if ts != [] {
      TokenSize(ts[0], cs[0], out);
      TokensSize(ts[1..], cs[1..], Expand(out, ts[0]));
    }
  }

  lemma StreamSize(z: seq<byte>, data: seq<byte>, ts: seq<Token>, cs: seq<Code>)
    requires IsZlib(z, data, ts, cs)
    ensures 0 < |z| <= 6 + (11 * |data| + 17) / 8
  {
    TokensSize(ts, cs, []);
    assert BlockCode(cs).len == 3 + Concat(cs).len + 7;
  }
}
