/** Canonical Huffman codes as section 3.2.2 of RFC 1951 assigns them, and what makes a list of
code lengths decodable. Nothing here mentions a table. */
module Canonical {
  import opened Bits

  predicate IsLengths(lens: seq<nat>) {
    |lens| <= 288 && forall i :: 0 <= i < |lens| ==> lens[i] <= 15
  }

  /** How many of the first n symbols have codes of length s. */
  function Count(lens: seq<nat>, n: nat, s: nat): (c: nat)
    requires n <= |lens|
    ensures c <= n
  {
    if n == 0 then 0 else Count(lens, n - 1, s) + (if lens[n - 1] == s then 1 else 0)
  }

  function CountAll(lens: seq<nat>, s: nat): nat {
    Count(lens, |lens|, s)
  }

  /** The smallest code of length s. */
  function First(lens: seq<nat>, s: nat): nat
    requires 1 <= s
    decreases s, 0
  {
    if s == 1 then 0 else 2 * End(lens, s - 1)
  }

  /** One more than the largest code of length s. */
  function End(lens: seq<nat>, s: nat): nat
    requires 1 <= s
    decreases s, 1
  {
    First(lens, s) + CountAll(lens, s)
  }

  /** How many symbols have shorter codes. */
  function FirstSymbol(lens: seq<nat>, s: nat): nat
    requires 1 <= s
  {
    if s == 1 then 0 else FirstSymbol(lens, s - 1) + CountAll(lens, s - 1)
  }

  /** The code of symbol v: codes of one length are consecutive, in the order of the symbols. */
  function CodeOf(lens: seq<nat>, v: nat): nat
    requires v < |lens| && lens[v] > 0
  {
    First(lens, lens[v]) + Count(lens, v, lens[v])
  }

  /** The stream r starts with the code of v; codes are packed highest bit first. */
  predicate Matches(lens: seq<nat>, v: nat, r: nat) {
    v < |lens| && lens[v] > 0 && Rev(r, lens[v]) == CodeOf(lens, v)
  }

  /** If length s is in use, s bits are enough to tell its codes from the shorter ones. */
  predicate HasRoom(lens: seq<nat>, s: nat)
    requires 1 <= s
  {
    CountAll(lens, s) > 0 ==> End(lens, s) <= Pow2(s)
  }

  predicate Accepted(lens: seq<nat>) {
    forall s :: 1 <= s <= 15 ==> HasRoom(lens, s)
  }

  /** The symbol a stream starts with, -1 when it starts with no code. */
  ghost function Decoded(lens: seq<nat>, r: nat): (v: int)
    ensures v == -1 ==> forall w: nat :: !Matches(lens, w, r)
    ensures v != -1 ==> 0 <= v < |lens| && Matches(lens, v, r)
  {
    if v: nat :| Matches(lens, v, r) then v else -1
  }

  // ----- Ranks -----

  lemma {:induction false} CountMonotone(lens: seq<nat>, m: nat, n: nat, s: nat)
    requires m <= n <= |lens|
    ensures Count(lens, m, s) <= Count(lens, n, s)
    ensures m < n && lens[m] == s ==> Count(lens, m, s) < Count(lens, n, s)
  {
    if m < n {
      CountMonotone(lens, m, n - 1, s);
    }
  }

  /** The symbol of a given rank among those of its length. */
  lemma {:induction false} Select(lens: seq<nat>, n: nat, s: nat, rank: nat) returns (v: nat)
    requires n <= |lens| && rank < Count(lens, n, s)
    ensures v < n && lens[v] == s && Count(lens, v, s) == rank
  {
    if rank == Count(lens, n - 1, s) {
      v := n - 1;
    } else {
      v := Select(lens, n - 1, s, rank);
    }
  }

  // ----- Codes, aligned to 16 bits, tile an interval from 0 on -----

  /** The end of the codes of length at most s, aligned to 16 bits. */
  function Limit(lens: seq<nat>, s: nat): nat
    requires s <= 16
  {
    if s == 0 then 0 else Shl(End(lens, s), 16 - s)
  }

  lemma LimitIsNextStart(lens: seq<nat>, s: nat)
    requires 1 <= s <= 16
    ensures Limit(lens, s - 1) == Shl(First(lens, s), 16 - s)
  {
    if s == 1 {
      ShlIsProduct(0, 15);
    }
  }

  lemma {:induction false} LimitMonotone(lens: seq<nat>, s: nat, t: nat)
    requires s <= t <= 16
    ensures Limit(lens, s) <= Limit(lens, t)
  {
    if s < t {
      LimitMonotone(lens, s, t - 1);
      LimitIsNextStart(lens, t);
      ShlMonotone(First(lens, t), End(lens, t), 16 - t);
    }
  }

  /** A stream starts with a code of length s exactly when its first 16 bits fall in the code's interval. */
  lemma MatchesInterval(lens: seq<nat>, v: nat, r: nat)
    requires v < |lens| && 1 <= lens[v] <= 15
    ensures var s, k := lens[v], Rev(r, 16);
            && (Matches(lens, v, r) <==> CodeOf(lens, v) == Drop(k, 16 - s))
            && (Matches(lens, v, r) ==> Limit(lens, s - 1) <= k < Limit(lens, s))
  {
    var s, k := lens[v], Rev(r, 16);
    RevPrefix(r, s, 16);
    LimitIsNextStart(lens, s);
    CountMonotone(lens, v, |lens|, s);
    DropInterval(k, 16 - s, First(lens, s), End(lens, s));
  }

  /** No code is a prefix of another: a stream starts with the code of at most one symbol. */
  lemma PrefixFree(lens: seq<nat>, v: nat, w: nat, r: nat)
    requires IsLengths(lens) && Matches(lens, v, r) && Matches(lens, w, r)
    ensures v == w
  {
    MatchesInterval(lens, v, r);
    MatchesInterval(lens, w, r);
    if lens[v] < lens[w] {
      LimitMonotone(lens, lens[v], lens[w] - 1);
    } else if lens[w] < lens[v] {
      LimitMonotone(lens, lens[w], lens[v] - 1);
    } else if v < w {
      CountMonotone(lens, v, w, lens[v]);
    } else if w < v {
      CountMonotone(lens, w, v, lens[v]);
    }
  }

  /** Every 16-bit word within the interval of the codes of length s starts with one of them. */
  lemma MatchAtLevel(lens: seq<nat>, r: nat, s: nat) returns (v: nat)
    requires IsLengths(lens) && 1 <= s <= 15
    requires Limit(lens, s - 1) <= Rev(r, 16) < Limit(lens, s)
    ensures v < |lens| && lens[v] == s && Matches(lens, v, r)
    ensures Count(lens, v, s) == Drop(Rev(r, 16), 16 - s) - First(lens, s)
  {
    var k := Rev(r, 16);
    LimitIsNextStart(lens, s);
    DropInterval(k, 16 - s, First(lens, s), End(lens, s));
    v := Select(lens, |lens|, s, Drop(k, 16 - s) - First(lens, s));
    MatchesInterval(lens, v, r);
  }

  /** A word below the limit of length s starts with a code of at most that length. */
  lemma {:induction false} MatchBelow(lens: seq<nat>, r: nat, s: nat) returns (v: nat)
    requires IsLengths(lens) && s <= 15 && Rev(r, 16) < Limit(lens, s)
    ensures v < |lens| && 1 <= lens[v] <= s && Matches(lens, v, r)
  {
    if Rev(r, 16) < Limit(lens, s - 1) {
      v := MatchBelow(lens, r, s - 1);
    } else {
      v := MatchAtLevel(lens, r, s);
    }
  }

  /** A word at or above the limit of length s starts with no code of at most that length. */
  lemma NoMatchAbove(lens: seq<nat>, r: nat, s: nat, v: nat)
    requires IsLengths(lens) && s <= 15 && Limit(lens, s) <= Rev(r, 16)
    requires Matches(lens, v, r)
    ensures lens[v] > s
  {
    MatchesInterval(lens, v, r);
    if lens[v] <= s {
      LimitMonotone(lens, lens[v], s);
    }
  }

  /** Acceptance bounds every level, used or not. */
  lemma {:induction false} EndBound(lens: seq<nat>, s: nat)
    requires Accepted(lens) && 1 <= s <= 15
    ensures First(lens, s) <= End(lens, s) <= Pow2(s)
  {
    assert HasRoom(lens, s);
    if s > 1 {
      EndBound(lens, s - 1);
    }
  }

  // ----- Kraft's inequality -----

  /** The share of the 15-bit words that the codes of the first n symbols would take. */
  function Kraft(lens: seq<nat>, n: nat): nat
    requires IsLengths(lens) && n <= |lens|
  {
    if n == 0 then 0 else Kraft(lens, n - 1) + (if lens[n - 1] == 0 then 0 else Pow2(15 - lens[n - 1]))
  }

  /** The same share, summed by length instead of by symbol. */
  function KraftByLength(lens: seq<nat>, n: nat, s: nat): nat
    requires n <= |lens| && s <= 15
  {
    if s == 0 then 0 else KraftByLength(lens, n, s - 1) + Count(lens, n, s) * Pow2(15 - s)
  }

  lemma {:induction false} KraftSumsAgree(lens: seq<nat>, n: nat)
    requires IsLengths(lens) && n <= |lens|
    ensures Kraft(lens, n) == KraftByLength(lens, n, 15)
  {
    if n == 0 {
      KraftOfNone(lens, 15);
    } else {
      KraftSumsAgree(lens, n - 1);
      KraftStep(lens, n, 15);
    }
  }

  lemma {:induction false} KraftOfNone(lens: seq<nat>, s: nat)
    requires s <= 15
    ensures KraftByLength(lens, 0, s) == 0
  {
    if s > 0 {
      KraftOfNone(lens, s - 1);
    }
  }

  lemma {:induction false} KraftStep(lens: seq<nat>, n: nat, s: nat)
    requires IsLengths(lens) && 0 < n <= |lens| && s <= 15
    ensures KraftByLength(lens, n, s) == KraftByLength(lens, n - 1, s)
              + (if 1 <= lens[n - 1] <= s then Pow2(15 - lens[n - 1]) else 0)
  {
    if s > 0 {
      KraftStep(lens, n, s - 1);
      assert (Count(lens, n - 1, s) + 1) * Pow2(15 - s) == Count(lens, n - 1, s) * Pow2(15 - s) + Pow2(15 - s);
    }
  }

  lemma {:induction false} KraftIsEnd(lens: seq<nat>, s: nat)
    requires 1 <= s <= 15
    ensures KraftByLength(lens, |lens|, s) == End(lens, s) * Pow2(15 - s)
  {
    if s > 1 {
      KraftIsEnd(lens, s - 1);
    } else {
      assert KraftByLength(lens, |lens|, 0) == 0;
    }
    KraftIsEndStep(Pow2(15 - s), if s == 1 then 0 else End(lens, s - 1), CountAll(lens, s));
  }

  lemma KraftIsEndStep(p: nat, e: nat, c: nat)
    ensures e * (2 * p) + c * p == (2 * e + c) * p
  {
  }

  /** A list of lengths is accepted exactly when it satisfies Kraft's inequality. */
  lemma AcceptedIffKraft(lens: seq<nat>)
    requires IsLengths(lens)
    ensures Accepted(lens) <==> Kraft(lens, |lens|) <= Pow2(15)
  {
    KraftSumsAgree(lens, |lens|);
    KraftIsEnd(lens, 15);
    assert Pow2(0) == 1;
    if Accepted(lens) {
      EndBound(lens, 15);
    } else {
      var s :| 1 <= s <= 15 && !HasRoom(lens, s);
      KraftGrows(lens, s, 15);
      KraftIsEnd(lens, s);
      Pow2Add(s, 15 - s);
      StrictScale(Pow2(15 - s), Pow2(s), End(lens, s));
    }
  }

  lemma StrictScale(p: nat, a: nat, b: nat)
    requires p > 0 && a < b
    ensures a * p < b * p
  {
  }

  lemma {:induction false} KraftGrows(lens: seq<nat>, s: nat, t: nat)
    requires s <= t <= 15
    ensures KraftByLength(lens, |lens|, s) <= KraftByLength(lens, |lens|, t)
  {
    if s < t {
      KraftGrows(lens, s, t - 1);
    }
  }
}
