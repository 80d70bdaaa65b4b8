/** Canonical codes as bit strings, and fields of fixed width: each is read back as what was written. */
module CodeWords {
  import opened Bits
  import opened Canonical
  import opened Huffman

  /** The code of symbol v, highest bit first. */
  function Word(lens: seq<nat>, v: nat): Code
    requires v < |lens| && lens[v] > 0
  {
    Code(Rev(CodeOf(lens, v), lens[v]), lens[v])
  }

  /** A stream that starts with the code of v decodes to v. */
  lemma WordDecodes(lens: seq<nat>, v: nat, rest: nat)
    requires IsLengths(lens) && v < |lens| && lens[v] > 0 && CodeOf(lens, v) < Pow2(lens[v])
    ensures Decoded(lens, Before(Word(lens, v), rest)) == v && Drop(Before(Word(lens, v), rest), lens[v]) == rest
  {
    var s, c := lens[v], CodeOf(lens, v);
    var r := Join(Rev(c, s), s, rest);
    JoinSplit(Rev(c, s), s, rest);
    RevLow(r, s, s);
    RevLow(Rev(c, s), s, s);
    RevRev(c, s);
    LowSmall(c, s);
    DecodedIs(lens, v, r);
  }

  lemma FieldReads(v: nat, n: nat, rest: nat)
    requires v < Pow2(n)
    ensures Low(Before(Code(v, n), rest), n) == v && Drop(Before(Code(v, n), rest), n) == rest
  {
    JoinSplit(v, n, rest);
    LowSmall(v, n);
  }

  /** Only zeros follow zeros. */
  lemma {:induction false} ZerosFollow(a: nat, n: nat, b: nat)
    requires Join(a, n, b) == 0
    ensures b == 0
  {
    if n > 0 {
      ZerosFollow(a / 2, n - 1, b);
    }
  }

  // ----- Zeros -----

  /** The first of the symbols below n with the shortest code, -1 if none of them has a code. */
  function Shortest(lens: seq<nat>, n: nat): (v: int)
    requires n <= |lens|
    ensures -1 <= v < n
  {
    if n == 0 then -1 else
      var v := Shortest(lens, n - 1);
      if lens[n - 1] > 0 && (v < 0 || lens[n - 1] < lens[v]) then n - 1 else v
  }

  /** The symbol that zero bits stand for: all zeros is the first code of the shortest length. */
  function ZeroSymbol(lens: seq<nat>): (v: int)
    ensures -1 <= v < |lens|
  {
    Shortest(lens, |lens|)
  }

  lemma {:induction false} ShortestIs(lens: seq<nat>, n: nat)
    requires n <= |lens|
    ensures var v := Shortest(lens, n);
            && (v < 0 ==> forall w :: 0 <= w < n ==> lens[w] == 0)
            && (v >= 0 ==> lens[v] > 0 && (forall w :: 0 <= w < n && lens[w] > 0 ==> lens[v] <= lens[w])
                           && forall w :: 0 <= w < v ==> lens[w] != lens[v])
  {
    if n > 0 {
      ShortestIs(lens, n - 1);
    }
  }

  lemma {:induction false} NoneOfLength(lens: seq<nat>, n: nat, s: nat)
    requires n <= |lens| && forall w :: 0 <= w < n ==> lens[w] != s
    ensures Count(lens, n, s) == 0
  {
    if n > 0 {
      NoneOfLength(lens, n - 1, s);
    }
  }

  lemma {:induction false} FirstIsZero(lens: seq<nat>, s: nat)
    requires 1 <= s && forall w :: 0 <= w < |lens| && lens[w] > 0 ==> s <= lens[w]
    ensures First(lens, s) == 0
    decreases s
  {
    if s > 1 {
      FirstIsZero(lens, s - 1);
      NoneOfLength(lens, |lens|, s - 1);
    }
  }

  /** Zeros decode to the first symbol with the shortest code. */
  lemma ZerosDecode(lens: seq<nat>)
    requires IsLengths(lens)
    ensures Decoded(lens, 0) == ZeroSymbol(lens)
  {
    var v := ZeroSymbol(lens);
    ShortestIs(lens, |lens|);
    if v >= 0 {
      FirstIsZero(lens, lens[v]);
      NoneOfLength(lens, v, lens[v]);
      ZeroBits(lens[v]);
      DecodedIs(lens, v, 0);
    }
  }

  lemma {:induction false} ZeroBits(n: nat)
    ensures Rev(0, n) == 0 && Join(0, n, 0) == 0 && Drop(0, n) == 0
  {
    if n > 0 {
      ZeroBits(n - 1);
    }
  }
}
