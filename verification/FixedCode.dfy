/** The fixed Huffman block: the writer's codes for literals, lengths and distances, the tables
both sides share, and the bit string of a whole block. Sections 3.2.5 and 3.2.6 of RFC 1951. */
module FixedCode {
  import opened Bits
  import opened Lz77

  const LENGTH_BASE: seq<nat> := [3, 4, 5, 6, 7, 8, 9, 10, 11, 13, 15, 17, 19, 23, 27, 31, 35, 43, 51, 59, 67, 83,
                                  99, 115, 131, 163, 195, 227, 258]
  const LENGTH_EXTRA: seq<nat> := [0, 0, 0, 0, 0, 0, 0, 0, 1, 1, 1, 1, 2, 2, 2, 2, 3, 3, 3, 3, 4, 4, 4, 4,
                                   5, 5, 5, 5, 0]
  const DISTANCE_BASE: seq<nat> := [1, 2, 3, 4, 5, 7, 9, 13, 17, 25, 33, 49, 65, 97, 129, 193, 257, 385, 513, 769, 1025,
                                    1537, 2049, 3073, 4097, 6145, 8193, 12289, 16385, 24577]
  const DISTANCE_EXTRA: seq<nat> := [0, 0, 0, 0, 1, 1, 2, 2, 3, 3, 4, 4, 5, 5, 6, 6, 7, 7, 8, 8, 9, 9, 10, 10, 11, 11,
                                     12, 12, 13, 13]

  /** The writer's tables end in a sentinel, the reader's in unused zeros. */
  const LENGTH_LIMITS := LENGTH_BASE + [259]
  const DISTANCE_LIMITS := DISTANCE_BASE + [32768]

  /** From slot j on, every extra field is wide enough to reach the next base. */
  predicate ReachNext(limits: seq<nat>, extra: seq<nat>, j: nat)
    requires j <= |extra| && |limits| == |extra| + 1
    decreases |extra| - j
  {
    j == |extra| || (limits[j] < limits[j + 1] <= limits[j] + Pow2(extra[j]) && ReachNext(limits, extra, j + 1))
  }

  lemma {:induction false} ReachAt(limits: seq<nat>, extra: seq<nat>, j: nat, k: nat)
    requires |limits| == |extra| + 1 && j <= k < |extra| && ReachNext(limits, extra, j)
    ensures limits[k] < limits[k + 1] <= limits[k] + Pow2(extra[k])
    decreases k - j
  {
    if j < k {
      ReachAt(limits, extra, j + 1, k);
    }
  }

  lemma Powers()
    ensures Pow2(0) == 1 && Pow2(1) == 2 && Pow2(2) == 4 && Pow2(3) == 8 && Pow2(4) == 16
    ensures Pow2(5) == 32 && Pow2(6) == 64
    ensures Pow2(7) == 128 && Pow2(8) == 256 && Pow2(9) == 512 && Pow2(10) == 1024
    ensures Pow2(11) == 2048 && Pow2(12) == 4096 && Pow2(13) == 8192
  {
  }

  lemma LengthsAscend(j: nat)
    requires j < 29
    ensures LENGTH_LIMITS[j] < LENGTH_LIMITS[j + 1]
  {
  }

  lemma LengthsReach(j: nat)
    requires j < 29
    ensures LENGTH_LIMITS[j + 1] <= LENGTH_LIMITS[j] + Pow2(LENGTH_EXTRA[j])
  {
    Powers();
  }

  lemma {:induction false} LengthsFit(j: nat)
    requires j <= 29
    ensures ReachNext(LENGTH_LIMITS, LENGTH_EXTRA, j)
    decreases 29 - j
  {
    if j < 29 {
      LengthsAscend(j);
      LengthsReach(j);
      LengthsFit(j + 1);
    }
  }

  lemma DistancesAscend(j: nat)
    requires j < 30
    ensures DISTANCE_LIMITS[j] < DISTANCE_LIMITS[j + 1]
  {
  }

  lemma DistancesReach(j: nat)
    requires j < 30
    ensures DISTANCE_LIMITS[j + 1] <= DISTANCE_LIMITS[j] + Pow2(DISTANCE_EXTRA[j])
  {
    Powers();
  }

  lemma {:induction false} DistancesFit(j: nat)
    requires j <= 30
    ensures ReachNext(DISTANCE_LIMITS, DISTANCE_EXTRA, j)
    decreases 30 - j
  {
    if j < 30 {
      DistancesAscend(j);
      DistancesReach(j);
      DistancesFit(j + 1);
    }
  }

  // ----- Slots -----

  /** The slot whose range holds v. */
  predicate InSlot(limits: seq<nat>, j: nat, v: nat) {
    j + 1 < |limits| && limits[j] <= v < limits[j + 1]
  }

  /** The writer's scan for the slot of a length or a distance. */
  method FindSlot(limits: seq<nat>, extra: seq<nat>, v: nat) returns (j: nat)
    requires |limits| == |extra| + 1 && ReachNext(limits, extra, 0)
    requires 0 < |extra| && limits[0] <= v < limits[|extra|]
    ensures InSlot(limits, j, v)
    ensures v - limits[j] < Pow2(extra[j])
  {
    j := 0;
    while v + 1 > limits[j + 1]
      invariant 0 <= j < |extra| && limits[j] <= v
      decreases |extra| - j
    {
      j := j + 1;
    }
    ReachAt(limits, extra, 0, j);
  }

  // ----- Codes -----

  /** The writer's four ranges of literal and length codes, already reversed for packing. */
  function SymbolCode(n: nat): Code
    requires n < 288
  {
    if n <= 143 then Code(Rev(0x30 + n, 8), 8)
    else if n <= 255 then Code(Rev(0x190 + n - 144, 9), 9)
    else if n <= 279 then Code(Rev(n - 256, 7), 7)
    else Code(Rev(0xc0 + n - 280, 8), 8)
  }

  /** A length or distance within its slot: the offset from the slot's base. */
  function ExtraCode(limits: seq<nat>, extra: seq<nat>, j: nat, v: nat): Code
    requires |limits| == |extra| + 1 && InSlot(limits, j, v)
  {
    Code(v - limits[j], extra[j])
  }

  function MatchCode(j: nat, length: nat, k: nat, distance: nat): Code
    requires InSlot(LENGTH_LIMITS, j, length) && InSlot(DISTANCE_LIMITS, k, distance)
  {
    Cat(Cat(Cat(SymbolCode(257 + j), ExtraCode(LENGTH_LIMITS, LENGTH_EXTRA, j, length)),
            Code(Rev(k, 5), 5)),
        ExtraCode(DISTANCE_LIMITS, DISTANCE_EXTRA, k, distance))
  }

  /** c is the bit string of one token. */
  ghost predicate IsTokenCode(t: Token, c: Code) {
    match t
    case Literal(b) => c == SymbolCode(b)
    case Match(length, distance) =>
      exists j, k :: InSlot(LENGTH_LIMITS, j, length) && InSlot(DISTANCE_LIMITS, k, distance)
                     && c == MatchCode(j, length, k, distance)
  }

  ghost predicate AreTokenCodes(ts: seq<Token>, cs: seq<Code>) {
    |ts| == |cs| && forall i :: 0 <= i < |ts| ==> IsTokenCode(ts[i], cs[i])
  }

  /** The codes one after the other. */
  function Concat(cs: seq<Code>): Code {
    if cs == [] then Code(0, 0) else Cat(cs[0], Concat(cs[1..]))
  }

  lemma ConcatOne(c: Code)
    requires c.Fits()
    ensures Concat([c]) == c && Cat(Code(0, 0), c) == c
  {
    assert [c][1..] == [];
    JoinZero(c.val, c.len);
    LowSmall(c.val, c.len);
  }

  lemma ConcatCons(first: Code, rest: seq<Code>)
    ensures Concat([first] + rest) == Cat(first, Concat(rest))
  {
    assert ([first] + rest)[1..] == rest;
  }

  lemma {:induction false} ConcatSnoc(cs: seq<Code>, last: Code)
    requires last.Fits()
    ensures Concat(cs + [last]) == Cat(Concat(cs), last)
  {
    if cs == [] {
      assert cs + [last] == [last];
      ConcatOne(last);
    } else {
      var first, rest := cs[0], cs[1..];
      ConcatSnoc(rest, last);
      ConcatCons(first, rest + [last]);
      assert [first] + (rest + [last]) == cs + [last];
      CatAssoc(first, Concat(rest), last);
    }
  }

  const END_OF_BLOCK := 256

  /** The only block of a stream: final, of the fixed type, tokens and end marker. */
  function BlockCode(cs: seq<Code>): Code {
    Cat(Cat(Cat(Code(1, 1), Code(1, 2)), Concat(cs)), SymbolCode(END_OF_BLOCK))
  }
}
