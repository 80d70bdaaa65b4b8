/** The decoder's Huffman tables: how they are built from a list of code lengths, and the lookup
that takes a 9-bit shortcut and falls back on a search by length. */
module Huffman {
  import opened Bits
  import opened Canonical

  // ----- Bit reversal by exchanging groups -----

  /** Exchange the two w-bit halves of each of the lowest k groups of 2w bits and drop the rest:
  what one line of masks and shifts does to a 16-bit word. */
  function Exchange(n: nat, w: nat, k: nat): nat {
    if k == 0 then 0
    else Join(Drop(n, w), w, Join(n, w, Exchange(Drop(n, 2 * w), w, k - 1)))
  }

  function BitReverse16(n: nat): nat {
    Exchange(Exchange(Exchange(Exchange(n, 1, 8), 2, 4), 4, 2), 8, 1)
  }

  /** The lowest k groups of w bits, each reversed in place. */
  function ReversedGroups(n: nat, w: nat, k: nat): nat {
    if k == 0 then 0 else Join(Rev(n, w), w, ReversedGroups(Drop(n, w), w, k - 1))
  }

  lemma {:induction false} ExchangeBits(n: nat, k: nat)
    ensures Exchange(n, 1, k) == ReversedGroups(n, 2, k)
  {
    if k > 0 {
      ExchangeBits(Drop(n, 2), k - 1);
      ExchangeTwo(n, Exchange(Drop(n, 2), 1, k - 1));
    }
  }

  lemma ExchangeTwo(n: nat, x: nat)
    ensures Drop(n, 1) == n / 2 && Join(Rev(n, 2), 2, x) == Join(n / 2, 1, Join(n, 1, x))
  {
    var r := Rev(n, 2);
    assert Rev(n, 1) == n % 2;
    assert r == 2 * (n % 2) + n / 2 % 2;
    assert Join(r / 2, 1, x) == r / 2 % 2 + 2 * x;
    assert Join(r, 2, x) == r % 2 + 2 * (r / 2 % 2 + 2 * x);
    assert Join(n / 2, 1, Join(n, 1, x)) == n / 2 % 2 + 2 * Join(n, 1, x);
  }

  /** Exchanging the halves doubles the width of the reversed groups. */
  lemma {:induction false} ExchangeReversed(n: nat, w: nat, k: nat)
    ensures Exchange(ReversedGroups(n, w, 2 * k), w, k) == ReversedGroups(n, 2 * w, k)
  {
    if k > 0 {
      var a, b := Rev(n, w), Rev(Drop(n, w), w);
      var rest := ReversedGroups(Drop(Drop(n, w), w), w, 2 * k - 2);
      var g := ReversedGroups(n, w, 2 * k);
      assert ReversedGroups(Drop(n, w), w, 2 * k - 1) == Join(b, w, rest);
      assert g == Join(a, w, Join(b, w, rest));
      JoinSplit(a, w, Join(b, w, rest));
      JoinSplit(b, w, rest);
      DropDrop(g, w, w);
      DropDrop(n, w, w);
      ExchangeReversed(Drop(n, 2 * w), w, k - 1);
      var x := Exchange(rest, w, k - 1);
      assert Exchange(g, w, k) == Join(b, w, Join(a, w, x)) by {
        JoinLow(Join(b, w, rest), w, Join(g, w, x));
        JoinLow(b, w, Join(g, w, x));
        JoinLow(g, w, x);
        JoinLow(a, w, x);
      }
      RevConcat(n, w, w, 2 * w);
      JoinAssoc(b, w, a, w, x);
    }
  }

  lemma {:induction false} RevConcat(n: nat, v: nat, w: nat, total: nat)
    requires total == v + w
    ensures Rev(n, total) == Join(Rev(Drop(n, v), w), w, Rev(n, v))
    decreases v
  {
    if v > 0 {
      RevConcat(n / 2, v - 1, w, total - 1);
      RevFront(n, total - 1);
      RevFront(n, v - 1);
      JoinAssoc(Rev(Drop(n, v), w), w, Rev(n / 2, v - 1), v - 1, n % 2);
    } else {
      assert total == w;
      JoinZero(Rev(n, w), w);
      LowSmall(Rev(n, w), w);
    }
  }

  lemma BitReverse16IsRev(n: nat)
    ensures BitReverse16(n) == Rev(n, 16)
  {
    ExchangeBits(n, 8);
    ExchangeReversed(n, 2, 4);
    ExchangeReversed(n, 4, 2);
    ExchangeReversed(n, 8, 1);
    JoinZero(Rev(n, 16), 16);
    LowSmall(Rev(n, 16), 16);
  }

  function BitReverse(v: nat, bits: nat): (r: nat)
    requires bits <= 16
    ensures r == Rev(v, bits)
  {
    BitReverse16IsRev(v);
    RevPrefix(v, bits, 16);
    Drop(BitReverse16(v), 16 - bits)
  }

  // ----- The tables -----

  const FAST_BITS := 9
  const FAST_SIZE := 512

  class Table {
    const fast: array<nat>
    const firstCode: array<nat>
    const maxCode: array<nat>
    const firstSymbol: array<nat>
    const size: array<nat>
    const value: array<nat>

    constructor ()
      ensures Shaped() && fresh(fast) && fresh(firstCode) && fresh(maxCode)
      ensures fresh(firstSymbol) && fresh(size) && fresh(value)
    {
      fast := new nat[FAST_SIZE];
      firstCode := new nat[16];
      maxCode := new nat[17];
      firstSymbol := new nat[16];
      size := new nat[288];
      value := new nat[288];
    }

    ghost function Arrays(): set<object> {
      {fast, firstCode, maxCode, firstSymbol, size, value}
    }

    ghost predicate Shaped() {
      && fast.Length == FAST_SIZE
      && firstCode.Length == 16 && maxCode.Length == 17 && firstSymbol.Length == 16
      && size.Length == 288 && value.Length == 288
      && fast != firstCode && fast != maxCode && fast != firstSymbol && fast != size && fast != value
      && firstCode != maxCode && firstCode != firstSymbol && firstCode != size && firstCode != value
      && maxCode != firstSymbol && maxCode != size && maxCode != value
      && firstSymbol != size && firstSymbol != value
      && size != value
    }

    /** The level tables describe the levels up to n. */
    ghost predicate LevelsBuilt(lens: seq<nat>, n: nat)
      requires Shaped() && n <= 15
      reads firstCode, maxCode, firstSymbol
    {
      forall s :: 1 <= s <= n ==> LevelEntry(lens, s, firstCode[s], maxCode[s], firstSymbol[s])
    }

    /** The symbol tables list the first n symbols by length, then by number. */
    ghost predicate SymbolsBuilt(lens: seq<nat>, n: nat)
      requires Shaped() && IsLengths(lens) && n <= |lens|
      reads size, value
    {
      forall v :: 0 <= v < n && lens[v] > 0 ==>
        && Slot(lens, v) < 288
        && size[Slot(lens, v)] == lens[v]
        && value[Slot(lens, v)] == v
    }

    /** The fast table answers for the first n symbols whose codes are short. */
    ghost predicate FastBuilt(lens: seq<nat>, n: nat)
      requires Shaped() && IsLengths(lens) && n <= |lens|
      reads fast
    {
      forall j :: 0 <= j < FAST_SIZE ==> FastEntry(lens, n, j, fast[j])
    }

    ghost predicate Built(lens: seq<nat>)
      reads fast, firstCode, maxCode, firstSymbol, size, value
    {
      && Shaped() && IsLengths(lens)
      && LevelsBuilt(lens, 15) && maxCode[16] == 0x10000
      && SymbolsBuilt(lens, |lens|)
      && FastBuilt(lens, |lens|)
    }

    /** Accepts exactly the length lists in which every length has room for its codes. */
    method Build(lens: seq<nat>) returns (ok: bool)
      requires Shaped() && IsLengths(lens)
      modifies fast, firstCode, maxCode, firstSymbol, size, value
      ensures ok <==> Accepted(lens)
      ensures ok ==> Built(lens)
    {
      for i := 0 to FAST_SIZE
        invariant forall j :: 0 <= j < i ==> fast[j] == 0
      {
        fast[i] := 0;
      }
      var sizes := CountSizes(lens);
      var i := 1;
      while i < 16
        invariant 1 <= i <= 16
      {
        if sizes[i] > Pow2(i) {
          assert !HasRoom(lens, i);
          return false;
        }
        i := i + 1;
      }
      var nextCode := new nat[16];
      ok := BuildLevels(lens, sizes, nextCode);
      if !ok { return; }
      maxCode[16] := 0x10000;
      assert FastBuilt(lens, 0);
      i := 0;
      while i < |lens|
        invariant 0 <= i <= |lens|
        invariant LevelsBuilt(lens, 15) && maxCode[16] == 0x10000
        invariant NextCodes(lens, nextCode, i, 15)
        invariant SymbolsBuilt(lens, i) && FastBuilt(lens, i)
      {
        EnterSymbol(lens, i, nextCode);
        i := i + 1;
      }
    }

    method EnterSymbol(lens: seq<nat>, i: nat, nextCode: array<nat>)
      requires Shaped() && IsLengths(lens) && i < |lens| && Accepted(lens)
      requires LevelsBuilt(lens, 15) && SymbolsBuilt(lens, i) && FastBuilt(lens, i)
      requires nextCode.Length == 16 && nextCode !in Arrays()
      requires NextCodes(lens, nextCode, i, 15)
      modifies fast, size, value, nextCode
      ensures SymbolsBuilt(lens, i + 1) && FastBuilt(lens, i + 1)
      ensures NextCodes(lens, nextCode, i + 1, 15)
    {
      var s := lens[i];
      if s != 0 {
        var c := nextCode[s] - firstCode[s] + firstSymbol[s];
        SlotsDistinct(lens, i);
        size[c] := s;
        value[c] := i;
        if s <= FAST_BITS {
          FillFast(lens, i, nextCode[s]);
        } else {
          FastSkip(lens, i);
        }
        nextCode[s] := nextCode[s] + 1;
      } else {
        FastSkip(lens, i);
      }
    }

    /** One length: its first code and symbol, and where its codes end. */
    method BuildLevel(lens: seq<nat>, i: nat, code: nat, k: nat, count: nat, nextCode: array<nat>)
      returns (ok: bool, end: nat)
      requires Shaped() && IsLengths(lens) && 1 <= i <= 15 && LevelsBuilt(lens, i - 1)
      requires code == First(lens, i) <= Pow2(i) && k == FirstSymbol(lens, i) && count == CountAll(lens, i)
      requires nextCode.Length == 16 && nextCode !in Arrays() && NextCodes(lens, nextCode, 0, i - 1)
      modifies firstCode, maxCode, firstSymbol, nextCode
      ensures ok <==> HasRoom(lens, i)
      ensures ok ==> end == End(lens, i) <= Pow2(i) && LevelsBuilt(lens, i) && NextCodes(lens, nextCode, 0, i)
    {
      StartLevel(lens, i, code, k, nextCode);
      end := code + count;
      if count != 0 {
        if end - 1 >= Pow2(i) {
          return false, end;
        }
      }
      EndLevel(lens, i, end);
      ok := true;
    }

    method StartLevel(lens: seq<nat>, i: nat, code: nat, k: nat, nextCode: array<nat>)
      requires Shaped() && IsLengths(lens) && 1 <= i <= 15 && LevelsBuilt(lens, i - 1)
      requires code == First(lens, i) <= Pow2(i) && k == FirstSymbol(lens, i)
      requires nextCode.Length == 16 && nextCode !in Arrays() && NextCodes(lens, nextCode, 0, i - 1)
      modifies firstCode, firstSymbol, nextCode
      ensures LevelsBuilt(lens, i - 1) && NextCodes(lens, nextCode, 0, i)
      ensures firstCode[i] == First(lens, i) && firstSymbol[i] == FirstSymbol(lens, i)
    {
      NoTruncation(lens, i);
      nextCode[i] := code;
      firstCode[i] := code % 0x10000;
      firstSymbol[i] := k % 0x10000;
    }

    method EndLevel(ghost lens: seq<nat>, i: nat, end: nat)
      requires Shaped() && 1 <= i <= 15 && LevelsBuilt(lens, i - 1) && end == End(lens, i)
      requires firstCode[i] == First(lens, i) && firstSymbol[i] == FirstSymbol(lens, i)
      modifies maxCode
      ensures LevelsBuilt(lens, i)
    {
      maxCode[i] := Shl(end, 16 - i);
      LevelEntryOf(lens, i);
    }

    method BuildLevels(lens: seq<nat>, sizes: array<nat>, nextCode: array<nat>) returns (ok: bool)
      requires Shaped() && IsLengths(lens)
      requires sizes.Length == 17 && forall s :: 1 <= s <= 15 ==> sizes[s] == CountAll(lens, s)
      requires nextCode.Length == 16 && nextCode !in Arrays() && sizes !in Arrays() && sizes != nextCode
      modifies firstCode, maxCode, firstSymbol, nextCode
      ensures ok <==> Accepted(lens)
      ensures ok ==> LevelsBuilt(lens, 15)
      ensures ok ==> NextCodes(lens, nextCode, 0, 15)
    {
      var code, k, i := 0, 0, 1;
      while i < 16
        invariant 1 <= i <= 16
        invariant i <= 15 ==> code == First(lens, i) <= Pow2(i)
        invariant i <= 15 ==> k == FirstSymbol(lens, i)
        invariant LevelsBuilt(lens, i - 1)
        invariant NextCodes(lens, nextCode, 0, i - 1)
        invariant RoomBelow(lens, i)
      {
        ok, code := BuildLevel(lens, i, code, k, sizes[i], nextCode);
        if !ok { return; }
        NextLevel(lens, i);
        code := 2 * code;
        k := k + sizes[i];
        i := i + 1;
      }
      ok := true;
    }

    /** Enters the code of symbol v into every fast slot whose low bits are that code. No slot is
    taken: distinct symbols never share one. */
    method FillFast(lens: seq<nat>, v: nat, code: nat)
      requires Shaped() && IsLengths(lens) && v < |lens| && Accepted(lens)
      requires 1 <= lens[v] <= FAST_BITS && code == CodeOf(lens, v)
      requires FastBuilt(lens, v)
      modifies fast
      ensures FastBuilt(lens, v + 1)
      ensures forall j :: 0 <= j < FAST_SIZE && old(fast[j]) != 0 ==> fast[j] == old(fast[j])
    {
      var s := lens[v];
      var fastv := (s * 512 + v) % 0x10000;
      var j := BitReverse(code, s);
      ghost var r, m := j, 0;
      assert fastv == s * 512 + v;
      LowSmall(r, s);
      JoinZero(r, s);
      while j < FAST_SIZE
        invariant j == Join(r, s, m)
        invariant forall x :: 0 <= x < FAST_SIZE ==>
          fast[x] == if Low(x, s) == r && Drop(x, s) < m then fastv else old(fast[x])
        decreases FAST_SIZE - j
      {
        JoinSplit(r, s, m);
        forall x | 0 <= x < FAST_SIZE && Low(x, s) == r && Drop(x, s) == m ensures x == j {
          SlotIsJoin(x, s);
        }
        fast[j] := fastv;
        j := j + Pow2(s);
        JoinNext(r, s, m);
        m := m + 1;
      }
      forall x | 0 <= x < FAST_SIZE
        ensures FastEntry(lens, v + 1, x, fast[x])
        ensures old(fast[x]) != 0 ==> fast[x] == old(fast[x])
      {
        SlotIsJoin(x, s);
        JoinMonotone(r, s, Drop(x, s), m);
        assert Low(x, s) == r ==> Drop(x, s) < m;
        assert fast[x] == if Low(x, s) == r then s * 512 + v else old(fast[x]);
        FastEntryAdded(lens, v, x, old(fast[x]));
      }
    }

    /** The symbol the stream starts with and the length of its code; -1 when it starts with none.
    Only the first 16 bits of the stream are looked at. */
    method Lookup(ghost lens: seq<nat>, bits: nat) returns (symbol: int, s: nat)
      requires Built(lens)
      ensures symbol == Decoded(lens, bits)
      ensures symbol >= 0 ==> s == lens[symbol] <= 15
    {
      var j := Low(bits, FAST_BITS);
      assert Pow2(9) == FAST_SIZE;
      var b := fast[j];
      assert FastEntry(lens, |lens|, j, b);
      if b != 0 {
        s := b / 512;
        symbol := b % 512;
        RevLow(bits, s, FAST_BITS);
        DecodedIs(lens, symbol, bits);
        return;
      }
      symbol, s := LookupSlow(lens, bits);
    }

    method LookupSlow(ghost lens: seq<nat>, bits: nat) returns (symbol: int, s: nat)
      requires Built(lens) && fast[Low(bits, FAST_BITS)] == 0
      ensures symbol == Decoded(lens, bits)
      ensures symbol >= 0 ==> s == lens[symbol] <= 15
    {
      var k := BitReverse(bits, 16);
      Pow2Of16();
      NoShortCode(lens, bits);
      s := FAST_BITS + 1;
      while !(k < maxCode[s])
        invariant FAST_BITS + 1 <= s <= 16
        invariant Limit(lens, s - 1) <= k
        decreases 16 - s
      {
        s := s + 1;
      }
      if s == 16 {
        forall v: nat ensures !Matches(lens, v, bits) {
          if Matches(lens, v, bits) {
            NoMatchAbove(lens, bits, 15, v);
          }
        }
        return -1, s;
      }
      symbol := SymbolAt(lens, bits, k, s);
    }

    /** The symbol of the code of length s that the bits start with. */
    method SymbolAt(ghost lens: seq<nat>, bits: nat, k: nat, s: nat) returns (symbol: nat)
      requires Built(lens) && 1 <= s <= 15 && k == Rev(bits, 16)
      requires Limit(lens, s - 1) <= k < Limit(lens, s)
      ensures symbol == Decoded(lens, bits) && s == lens[symbol]
    {
      ghost var v := MatchAtLevel(lens, bits, s);
      LimitIsNextStart(lens, s);
      DropInterval(k, 16 - s, First(lens, s), End(lens, s));
      var b := Drop(k, 16 - s) - firstCode[s] + firstSymbol[s];
      assert b == Slot(lens, v);
      assert size[b] == s;
      symbol := value[b];
      DecodedIs(lens, v, bits);
    }

    /** A zero fast entry rules out every code of at most nine bits. */
    lemma NoShortCode(lens: seq<nat>, bits: nat)
      requires Built(lens) && fast[Low(bits, FAST_BITS)] == 0
      ensures Limit(lens, FAST_BITS) <= Rev(bits, 16)
    {
      assert FastEntry(lens, |lens|, Low(bits, FAST_BITS), fast[Low(bits, FAST_BITS)]);
      if Rev(bits, 16) < Limit(lens, FAST_BITS) {
        var v := MatchBelow(lens, bits, FAST_BITS);
        RevLow(bits, lens[v], FAST_BITS);
      }
    }
  }

  method CountSizes(lens: seq<nat>) returns (sizes: array<nat>)
    requires IsLengths(lens)
    ensures fresh(sizes) && sizes.Length == 17
    ensures forall s :: 1 <= s <= 15 ==> sizes[s] == CountAll(lens, s)
  {
    sizes := new nat[17](_ => 0);
    for i := 0 to |lens|
      invariant forall s :: 0 <= s <= 15 ==> sizes[s] == Count(lens, i, s)
    {
      sizes[lens[i]] := sizes[lens[i]] + 1;
    }
    sizes[0] := 0;
  }

  /** The next code to hand out at each level up to n, after the first i symbols. */
  ghost predicate NextCodes(lens: seq<nat>, nextCode: array<nat>, i: nat, n: nat)
    requires i <= |lens| && nextCode.Length == 16 && n <= 15
    reads nextCode
  {
    forall s :: 1 <= s <= n ==> nextCode[s] == First(lens, s) + Count(lens, i, s)
  }

  ghost predicate LevelEntry(lens: seq<nat>, s: nat, first: nat, max: nat, symbol: nat)
    requires 1 <= s <= 16
  {
    && first == First(lens, s)
    && max == Limit(lens, s)
    && symbol == FirstSymbol(lens, s)
  }

  ghost predicate RoomBelow(lens: seq<nat>, i: nat) {
    forall s :: 1 <= s < i ==> HasRoom(lens, s)
  }

  lemma NextLevel(lens: seq<nat>, i: nat)
    requires 1 <= i <= 15
    ensures First(lens, i + 1) == 2 * End(lens, i)
    ensures FirstSymbol(lens, i + 1) == FirstSymbol(lens, i) + CountAll(lens, i)
    ensures Pow2(i + 1) == 2 * Pow2(i)
  {
  }

  lemma LevelEntryOf(lens: seq<nat>, s: nat)
    requires 1 <= s <= 15
    ensures LevelEntry(lens, s, First(lens, s), Shl(End(lens, s), 16 - s), FirstSymbol(lens, s))
  {
  }

  lemma NoTruncation(lens: seq<nat>, s: nat)
    requires IsLengths(lens) && 1 <= s <= 15 && First(lens, s) <= Pow2(s)
    ensures First(lens, s) < 0x10000 && FirstSymbol(lens, s) < 0x10000
  {
    Pow2Monotone(s, 15);
    assert Pow2(15) == 0x8000;
    FirstSymbolBound(lens, s);
  }

  /** Where symbol v stands in the list of symbols sorted by code. */
  function Slot(lens: seq<nat>, v: nat): nat
    requires IsLengths(lens) && v < |lens| && lens[v] > 0
  {
    FirstSymbol(lens, lens[v]) + Count(lens, v, lens[v])
  }

  /** What a fast entry says about the stream j as far as the first n symbols go. */
  ghost predicate FastEntry(lens: seq<nat>, n: nat, j: nat, entry: nat)
    requires IsLengths(lens) && n <= |lens|
  {
    && entry < 0x10000
    && (entry == 0 ==> forall v :: 0 <= v < n && lens[v] <= FAST_BITS ==> !Matches(lens, v, j))
    && (entry != 0 ==>
          var v, s := entry % 512, entry / 512;
          v < n && s == lens[v] && 1 <= s <= FAST_BITS && Matches(lens, v, j))
  }

  /** Entering a short code in the slots that start with it keeps every earlier entry. */
  lemma FastEntryAdded(lens: seq<nat>, v: nat, x: nat, entry: nat)
    requires IsLengths(lens) && Accepted(lens) && v < |lens| && 1 <= lens[v] <= FAST_BITS
    requires FastEntry(lens, v, x, entry)
    ensures var hit := Low(x, lens[v]) == Rev(CodeOf(lens, v), lens[v]);
            && (hit ==> entry == 0)
            && FastEntry(lens, v + 1, x, if hit then lens[v] * 512 + v else entry)
  {
    MatchesLow(lens, v, x);
    Unpack(lens[v], v);
    if Matches(lens, v, x) && entry != 0 {
      PrefixFree(lens, v, entry % 512, x);
    }
  }

  lemma Unpack(s: nat, v: nat)
    requires v < 512
    ensures (s * 512 + v) / 512 == s && (s * 512 + v) % 512 == v
  {
  }

  lemma DecodedIs(lens: seq<nat>, v: nat, r: nat)
    requires IsLengths(lens) && Matches(lens, v, r)
    ensures Decoded(lens, r) == v
  {
    PrefixFree(lens, v, Decoded(lens, r), r);
  }

  lemma CodeFits(lens: seq<nat>, v: nat)
    requires IsLengths(lens) && Accepted(lens) && v < |lens| && lens[v] > 0
    ensures CodeOf(lens, v) < Pow2(lens[v])
  {
    CountMonotone(lens, v, |lens|, lens[v]);
    EndBound(lens, lens[v]);
  }

  /** The streams that start with the code of v are those with its reversed code in their low bits. */
  lemma MatchesLow(lens: seq<nat>, v: nat, x: nat)
    requires IsLengths(lens) && Accepted(lens) && v < |lens| && lens[v] > 0
    ensures Matches(lens, v, x) <==> Low(x, lens[v]) == Rev(CodeOf(lens, v), lens[v])
  {
    var s, c := lens[v], CodeOf(lens, v);
    CodeFits(lens, v);
    RevRev(c, s);
    LowSmall(c, s);
    RevRev(x, s);
    RevLow(x, s, s);
  }

  lemma SlotIsJoin(x: nat, s: nat)
    ensures x == Join(Low(x, s), s, Drop(x, s))
  {
    Split(x, s);
    JoinLow(x, s, Drop(x, s));
  }

  lemma {:induction false} FirstSymbolBound(lens: seq<nat>, s: nat)
    requires IsLengths(lens) && 1 <= s <= 16
    ensures FirstSymbol(lens, s) == CountShorter(lens, |lens|, s) <= |lens|
  {
    if s > 1 {
      FirstSymbolBound(lens, s - 1);
      ShorterStep(lens, |lens|, s - 1);
    } else {
      NoneShorter(lens, |lens|);
    }
    ShorterBound(lens, |lens|, s);
  }

  /** How many of the first n symbols have codes, all shorter than s. */
  function CountShorter(lens: seq<nat>, n: nat, s: nat): nat
    requires n <= |lens|
  {
    if n == 0 then 0 else CountShorter(lens, n - 1, s) + (if 1 <= lens[n - 1] < s then 1 else 0)
  }

  lemma {:induction false} ShorterStep(lens: seq<nat>, n: nat, s: nat)
    requires n <= |lens| && 1 <= s
    ensures CountShorter(lens, n, s + 1) == CountShorter(lens, n, s) + Count(lens, n, s)
  {
    if n > 0 {
      ShorterStep(lens, n - 1, s);
    }
  }

  lemma {:induction false} NoneShorter(lens: seq<nat>, n: nat)
    requires n <= |lens|
    ensures CountShorter(lens, n, 1) == 0
  {
    if n > 0 {
      NoneShorter(lens, n - 1);
    }
  }

  lemma {:induction false} ShorterBound(lens: seq<nat>, n: nat, s: nat)
    requires n <= |lens|
    ensures CountShorter(lens, n, s) <= n
  {
    if n > 0 {
      ShorterBound(lens, n - 1, s);
    }
  }

  lemma {:induction false} FirstSymbolMonotone(lens: seq<nat>, s: nat, t: nat)
    requires 1 <= s < t
    ensures FirstSymbol(lens, s) + CountAll(lens, s) <= FirstSymbol(lens, t)
  {
    if s + 1 < t {
      FirstSymbolMonotone(lens, s, t - 1);
    }
  }

  /** The slot of symbol v is in range and differs from those of the symbols before it. */
  lemma SlotsDistinct(lens: seq<nat>, v: nat)
    requires IsLengths(lens) && v < |lens| && lens[v] > 0
    ensures Slot(lens, v) < |lens|
    ensures forall w :: 0 <= w < v && lens[w] > 0 ==> Slot(lens, w) != Slot(lens, v)
  {
    var s := lens[v];
    CountMonotone(lens, v, |lens|, s);
    FirstSymbolBound(lens, s + 1);
    forall w | 0 <= w < v && lens[w] > 0
      ensures Slot(lens, w) != Slot(lens, v)
    {
      CountMonotone(lens, w, |lens|, lens[w]);
      if lens[w] == s {
        CountMonotone(lens, w, v, s);
      } else if lens[w] < s {
        FirstSymbolMonotone(lens, lens[w], s);
      } else {
        FirstSymbolMonotone(lens, s, lens[w]);
      }
    }
  }

  lemma FastSkip(lens: seq<nat>, v: nat)
    requires IsLengths(lens) && v < |lens| && (lens[v] == 0 || lens[v] > FAST_BITS)
    ensures forall j: nat, entry: nat :: FastEntry(lens, v, j, entry) ==> FastEntry(lens, v + 1, j, entry)
  {
  }
}
