/** LZ77: literals and back references, and what they expand to. */
module Lz77 {
  import opened Bits

  datatype Token = Literal(b: byte) | Match(length: nat, distance: nat)

  /** Append length bytes, each a copy of the byte distance before the end; source and copy may overlap. */
  function Copy(out: seq<byte>, distance: nat, length: nat): (r: seq<byte>)
    requires 1 <= distance <= |out|
    ensures |r| == |out| + length
    decreases length
  {
    if length == 0 then out else Copy(out + [out[|out| - distance]], distance, length - 1)
  }

  /** The tokens the compressor may emit after n bytes. */
  predicate IsToken(t: Token, n: nat) {
    t.Match? ==> 3 <= t.length <= 258 && 1 <= t.distance <= 32767 && t.distance <= n
  }

  function Expand(out: seq<byte>, t: Token): seq<byte>
    requires IsToken(t, |out|)
  {
    match t
    case Literal(b) => out + [b]
    case Match(length, distance) => Copy(out, distance, length)
  }

  predicate AreTokens(ts: seq<Token>, out: seq<byte>) {
    ts == [] || (IsToken(ts[0], |out|) && AreTokens(ts[1..], Expand(out, ts[0])))
  }

  function ExpandAll(out: seq<byte>, ts: seq<Token>): seq<byte>
    requires AreTokens(ts, out)
    decreases |ts|
  {
    if ts == [] then out else ExpandAll(Expand(out, ts[0]), ts[1..])
  }

  lemma {:induction false} ExpandSnoc(out: seq<byte>, ts: seq<Token>, t: Token)
    requires AreTokens(ts, out) && IsToken(t, |ExpandAll(out, ts)|)
    ensures AreTokens(ts + [t], out)
    ensures ExpandAll(out, ts + [t]) == Expand(ExpandAll(out, ts), t)
    decreases |ts|
  {
    if ts == [] {
      assert ([t])[1..] == [];
    } else {
      ExpandSnoc(Expand(out, ts[0]), ts[1..], t);
      assert (ts + [t])[1..] == ts[1..] + [t];
    }
  }

  /** A match found by comparing bytes copies the right bytes. */
  lemma {:induction false} CopyOfMatch(data: seq<byte>, p: nat, i: nat, m: nat)
    requires p < i && i + m <= |data|
    requires data[p..p + m] == data[i..i + m]
    ensures Copy(data[..i], i - p, m) == data[..i + m]
    decreases m
  {
    if m > 0 {
      assert data[p] == data[p..p + m][0] == data[i..i + m][0] == data[i];
      assert data[p..p + m][1..] == data[p + 1..p + m];
      assert data[i..i + m][1..] == data[i + 1..i + m];
      assert data[..i] + [data[i]] == data[..i + 1];
      CopyOfMatch(data, p + 1, i + 1, m - 1);
    }
  }
}
