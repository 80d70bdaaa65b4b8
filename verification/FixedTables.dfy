/** The codes of fixed blocks: section 3.2.6 of RFC 1951 gives the lengths of both. */
module FixedTables {
  import opened Bits
  import opened Canonical
  import opened CodeWords
  import opened FixedCode

  function FixedLength(i: nat): nat {
    if i <= 143 then 8 else if i <= 255 then 9 else if i <= 279 then 7 else 8
  }

  function FixedLengths(): (lens: seq<nat>)
    ensures |lens| == 288 && forall i :: 0 <= i < 288 ==> lens[i] == FixedLength(i)
  {
    seq(288, i requires 0 <= i => FixedLength(i))
  }

  function FixedDistances(): (lens: seq<nat>)
    ensures |lens| == 32 && forall i :: 0 <= i < 32 ==> lens[i] == 5
  {
    seq(32, _ => 5)
  }

  // ----- The codes -----

  lemma FixedLengthsAre()
    ensures IsLengths(FixedLengths()) && IsLengths(FixedDistances())
  {
  }

  lemma {:induction false} FixedCount(n: nat, s: nat)
    requires n <= 288
    ensures Count(FixedLengths(), n, s) ==
      if s == 8 then (if n <= 144 then n else 144) + (if n <= 280 then 0 else n - 280)
      else if s == 9 then (if n <= 144 then 0 else if n <= 256 then n - 144 else 112)
      else if s == 7 then (if n <= 256 then 0 else if n <= 280 then n - 256 else 24)
      else 0
  {
    if n > 0 {
      FixedCount(n - 1, s);
    }
  }

  lemma {:induction false} FixedFirst(s: nat)
    requires 1 <= s <= 9
    ensures First(FixedLengths(), s) == if s <= 7 then 0 else if s == 8 then 0x30 else 0x190
  {
    if s > 1 {
      FixedFirst(s - 1);
      FixedCount(288, s - 1);
    }
  }

  lemma FixedCodeIs(n: nat)
    requires n < 288
    ensures CodeOf(FixedLengths(), n)
         == if n < 144 then 0x30 + n
            else if n < 256 then 0x190 + (n - 144)
            else if n < 280 then n - 256
            else 0xc0 + (n - 280)
  {
    FixedCount(n, FixedLengths()[n]);
    FixedFirst(FixedLengths()[n]);
  }

  /** The writer's four ranges are the canonical codes of the reader's lengths. */
  lemma FixedCodeOf(n: nat)
    requires n < 288
    ensures SymbolCode(n).len == FixedLengths()[n]
    ensures SymbolCode(n).val == Rev(CodeOf(FixedLengths(), n), FixedLengths()[n])
    ensures CodeOf(FixedLengths(), n) < Pow2(FixedLengths()[n])
  {
    FixedCodeIs(n);
    assert Pow2(7) == 128 && Pow2(8) == 256 && Pow2(9) == 512;
  }

  lemma {:induction false} DistanceCount(n: nat, s: nat)
    requires n <= 32
    ensures Count(FixedDistances(), n, s) == if s == 5 then n else 0
  {
    if n > 0 {
      DistanceCount(n - 1, s);
    }
  }

  lemma {:induction false} DistanceFirst(s: nat)
    requires 1 <= s <= 5
    ensures First(FixedDistances(), s) == 0
  {
    if s > 1 {
      DistanceFirst(s - 1);
      DistanceCount(32, s - 1);
      assert First(FixedDistances(), s) == 2 * (First(FixedDistances(), s - 1) + Count(FixedDistances(), 32, s - 1));
    }
  }

  lemma DistanceCodeOf(k: nat)
    requires k < 32
    ensures CodeOf(FixedDistances(), k) == k < Pow2(5)
  {
    DistanceCount(k, 5);
    DistanceFirst(5);
    assert Pow2(5) == 32;
  }

  lemma SymbolDecodes(n: nat, rest: nat)
    requires n < 288
    ensures var r := Before(SymbolCode(n), rest);
            Decoded(FixedLengths(), r) == n && Drop(r, FixedLengths()[n]) == rest
  {
    FixedLengthsAre();
    FixedCodeOf(n);
    WordDecodes(FixedLengths(), n, rest);
  }

  lemma DistanceDecodes(k: nat, rest: nat)
    requires k < 32
    ensures var r := Before(Code(Rev(k, 5), 5), rest);
            Decoded(FixedDistances(), r) == k && Drop(r, 5) == rest
  {
    DistanceCodeOf(k);
    WordDecodes(FixedDistances(), k, rest);
  }

  /** Both fixed lists have room for their codes; the builder's errors cannot occur. */
  lemma FixedAccepted()
    ensures IsLengths(FixedLengths()) && Accepted(FixedLengths())
    ensures IsLengths(FixedDistances()) && Accepted(FixedDistances())
  {
    FixedLengthsAre();
    forall s | 1 <= s <= 15
      ensures HasRoom(FixedLengths(), s) && HasRoom(FixedDistances(), s)
    {
      FixedCount(288, s);
      DistanceCount(32, s);
      assert Pow2(5) == 32 && Pow2(7) == 128 && Pow2(8) == 256 && Pow2(9) == 512;
      if 7 <= s <= 9 { FixedFirst(s); }
      if s == 5 { DistanceFirst(s); }
    }
  }
}
