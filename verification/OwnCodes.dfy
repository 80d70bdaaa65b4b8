/** The head of a block that brings its own codes: the lengths of both codes, run-length coded in a third code,
whose own lengths come first. Section 3.2.7 of RFC 1951. */
module OwnCodes {
  import opened Bits
  import opened Canonical
  import opened CodeWords
  import opened BlockFormat
  import opened CodedBlocks

  // ----- Runs of code lengths -----

  /** One length, the last one again, or zeros. */
  datatype LengthOp = Once(len: nat) | Again(times: nat) | Zeros(times: nat)

  function OpSymbol(op: LengthOp): nat {
    match op
    case Once(len) => len
    case Again(_) => 16
    case Zeros(times) => if times <= 10 then 17 else 18
  }

  function OpField(op: LengthOp): Code {
    match op
    case Once(_) => Code(0, 0)
    case Again(times) => Code(if times >= 3 then times - 3 else 0, 2)
    case Zeros(times) =>
      if times <= 10 then Code(if times >= 3 then times - 3 else 0, 3) else Code(times - 11, 7)
  }

  predicate IsOp(sizes: seq<nat>, op: LengthOp, lens: seq<nat>) {
    && HasWord(sizes, OpSymbol(op))
    && match op
       case Once(len) => len <= 15
       case Again(times) => 3 <= times <= 6 && lens != []
       case Zeros(times) => 3 <= times <= 138
  }

  function OpBits(sizes: seq<nat>, op: LengthOp): Code
    requires HasWord(sizes, OpSymbol(op))
  {
    Cat(Word(sizes, OpSymbol(op)), OpField(op))
  }

  /** The lengths after a run. */
  function RunOf(op: LengthOp, lens: seq<nat>): seq<nat>
    requires op.Again? ==> lens != []
  {
    match op
    case Once(len) => [len]
    case Again(times) => Fill(lens[|lens| - 1], times)
    case Zeros(times) => Fill(0, times)
  }

  predicate AreOps(sizes: seq<nat>, ops: seq<LengthOp>, lens: seq<nat>) {
    ops == [] || (IsOp(sizes, ops[0], lens) && AreOps(sizes, ops[1..], lens + RunOf(ops[0], lens)))
  }

  function AllLengths(sizes: seq<nat>, ops: seq<LengthOp>, lens: seq<nat>): (all: seq<nat>)
    requires AreOps(sizes, ops, lens)
    ensures |all| >= |lens|
    decreases |ops|
  {
    if ops == [] then lens else AllLengths(sizes, ops[1..], lens + RunOf(ops[0], lens))
  }

  function OpsBits(sizes: seq<nat>, ops: seq<LengthOp>, lens: seq<nat>): Code
    requires AreOps(sizes, ops, lens)
    decreases |ops|
  {
    if ops == [] then Code(0, 0)
    else Cat(OpBits(sizes, ops[0]), OpsBits(sizes, ops[1..], lens + RunOf(ops[0], lens)))
  }

  lemma FieldFits(op: LengthOp)
    requires op.Again? ==> 3 <= op.times <= 6
    requires op.Zeros? ==> 3 <= op.times <= 138
    ensures OpField(op).val < Pow2(OpField(op).len)
  {
    assert Pow2(0) == 1 && Pow2(2) == 4 && Pow2(3) == 8 && Pow2(7) == 128;
  }

  /** One run is read as what it stands for. */
  lemma OpReads(sizes: seq<nat>, op: LengthOp, lens: seq<nat>, rest: nat, at: nat, end: nat)
    requires IsLengths(sizes) && |sizes| == 19 && Accepted(sizes) && IsOp(sizes, op, lens)
    requires end == at + OpBits(sizes, op).len
    ensures BeginsWithOp(sizes, Stream(Before(OpBits(sizes, op), rest), at), op, lens, Stream(rest, end))
  {
    var z, field := OpSymbol(op), OpField(op);
    BeforeCat(Word(sizes, z), field, rest);
    WordReads(sizes, z, Before(field, rest), at);
    FieldFits(op);
    FieldReads(field.val, field.len, rest);
    if op.Once? {
      assert Fill(op.len, 1) == [op.len];
    }
  }

  /** Reading the runs gives the lengths they stand for. */
  lemma {:induction false} OpsRead(
      sizes: seq<nat>, ops: seq<LengthOp>, lens: seq<nat>, total: nat, rest: nat, at: nat, end: nat)
    requires IsLengths(sizes) && |sizes| == 19 && Accepted(sizes) && AreLengths(lens) && AreOps(sizes, ops, lens)
    requires |AllLengths(sizes, ops, lens)| == total && end == at + OpsBits(sizes, ops, lens).len
    ensures ReadLengths(sizes, Stream(Before(OpsBits(sizes, ops, lens), rest), at), lens, total)
         == LengthList(AllLengths(sizes, ops, lens), Stream(rest, end))
    decreases |ops|
  {
    if ops != [] {
      var longer, next := lens + RunOf(ops[0], lens), at + OpBits(sizes, ops[0]).len;
      FirstOp(sizes, ops, lens, total, rest, at, longer, next);
      OpsRead(sizes, ops[1..], longer, total, rest, next, end);
    } else {
      NoMoreOps(sizes, lens, total, Stream(rest, at));
    }
  }

  lemma FirstOp(sizes: seq<nat>, ops: seq<LengthOp>, lens: seq<nat>, total: nat, rest: nat, at: nat,
                longer: seq<nat>, next: nat)
    requires IsLengths(sizes) && |sizes| == 19 && Accepted(sizes) && AreLengths(lens)
    requires AreOps(sizes, ops, lens) && ops != [] && |AllLengths(sizes, ops, lens)| == total
    requires longer == lens + RunOf(ops[0], lens) && next == at + OpBits(sizes, ops[0]).len
    ensures AreLengths(longer) && |longer| <= total && AreOps(sizes, ops[1..], longer)
    ensures AllLengths(sizes, ops, lens) == AllLengths(sizes, ops[1..], longer)
    ensures at + OpsBits(sizes, ops, lens).len == next + OpsBits(sizes, ops[1..], longer).len
    ensures ReadLengths(sizes, Stream(Before(OpsBits(sizes, ops, lens), rest), at), lens, total)
         == ReadLengths(sizes, Stream(Before(OpsBits(sizes, ops[1..], longer), rest), next), longer, total)
  {
    var op, tail := ops[0], ops[1..];
    OpsUnfold(sizes, ops, lens, op, tail, longer);
    OneMoreOp(sizes, op, lens, total, longer, OpsBits(sizes, tail, longer), rest, at, next);
  }

  lemma NoMoreOps(sizes: seq<nat>, lens: seq<nat>, total: nat, r: Stream)
    requires IsLengths(sizes) && |sizes| == 19 && AreLengths(lens) && |lens| == total
    ensures Before(OpsBits(sizes, [], lens), r.val) == r.val && AllLengths(sizes, [], lens) == lens
    ensures ReadLengths(sizes, r, lens, total) == LengthList(lens, r)
  {
  }

  lemma OpsUnfold(sizes: seq<nat>, ops: seq<LengthOp>, lens: seq<nat>, op: LengthOp, tail: seq<LengthOp>,
                  longer: seq<nat>)
    requires ops != [] && AreOps(sizes, ops, lens) && op == ops[0] && tail == ops[1..]
    requires longer == lens + RunOf(op, lens)
    ensures IsOp(sizes, op, lens) && AreOps(sizes, tail, longer) && |longer| <= |AllLengths(sizes, tail, longer)|
    ensures AllLengths(sizes, ops, lens) == AllLengths(sizes, tail, longer)
    ensures OpsBits(sizes, ops, lens) == Cat(OpBits(sizes, op), OpsBits(sizes, tail, longer))
  {
  }

  lemma OneMoreOp(sizes: seq<nat>, op: LengthOp, lens: seq<nat>, total: nat, longer: seq<nat>, more: Code, rest: nat,
                  at: nat, next: nat)
    requires IsLengths(sizes) && |sizes| == 19 && Accepted(sizes) && AreLengths(lens) && IsOp(sizes, op, lens)
    requires longer == lens + RunOf(op, lens) && |longer| <= total && next == at + OpBits(sizes, op).len
    ensures AreLengths(longer)
    ensures ReadLengths(sizes, Stream(Before(Cat(OpBits(sizes, op), more), rest), at), lens, total)
         == ReadLengths(sizes, Stream(Before(more, rest), next), longer, total)
  {
    var a := OpBits(sizes, op);
    BeforeCat(a, more, rest);
    OpReads(sizes, op, lens, Before(more, rest), at, next);
    OpGoesOn(sizes, Stream(Before(a, Before(more, rest)), at), op, lens, total, longer,
             Stream(Before(more, rest), next));
  }

  /** The stream goes on with a run, whose length is in lens when it is needed. */
  ghost predicate BeginsWithOp(sizes: seq<nat>, r: Stream, op: LengthOp, lens: seq<nat>, rest: Stream)
    requires IsLengths(sizes) && |sizes| == 19
  {
    var z := OpSymbol(op);
    && Decoded(sizes, r.val) == z && (z == 16 ==> lens != [])
    && Repeats(z, lens, r.After(sizes[z])).rest == rest
    && Fill(Repeats(z, lens, r.After(sizes[z])).len, Repeats(z, lens, r.After(sizes[z])).times) == RunOf(op, lens)
  }

  lemma OpGoesOn(sizes: seq<nat>, r: Stream, op: LengthOp, lens: seq<nat>, total: nat, longer: seq<nat>, rest: Stream)
    requires IsLengths(sizes) && |sizes| == 19 && AreLengths(lens) && IsOp(sizes, op, lens)
    requires longer == lens + RunOf(op, lens) && |longer| <= total && BeginsWithOp(sizes, r, op, lens, rest)
    ensures AreLengths(longer)
    ensures ReadLengths(sizes, r, lens, total) == ReadLengths(sizes, rest, longer, total)
  {
  }

  // ----- The sizes of the third code -----

  /** Where in the order each symbol comes. */
  const PLACE: seq<nat> := [3, 17, 15, 13, 11, 9, 7, 5, 4, 6, 8, 10, 12, 14, 16, 18, 0, 1, 2]

  lemma OrderIsPermutation(j: nat)
    requires j < 19
    ensures ORDER[j] < 19 && PLACE[ORDER[j]] == j
    ensures PLACE[j] < 19 && ORDER[PLACE[j]] == j
  {
  }

  /** Sizes of at most three bits, those from place n of the order on being zero. */
  predicate AreSizes(sizes: seq<nat>, n: nat) {
    && |sizes| == 19 && n <= 19 && (forall v :: 0 <= v < 19 ==> sizes[v] <= 7)
    && forall v :: 0 <= v < 19 && PLACE[v] >= n ==> sizes[v] == 0
  }

  function SizesBits(sizes: seq<nat>, i: nat, n: nat): Code
    requires i <= n <= 19 == |sizes|
    decreases n - i
  {
    if i == n then Code(0, 0) else Cat(Code(sizes[ORDER[i]], 3), SizesBits(sizes, i + 1, n))
  }

  /** The first i places have been read. */
  predicate ReadUpTo(part: seq<nat>, sizes: seq<nat>, i: nat) {
    |part| == |sizes| == 19 && forall v :: 0 <= v < 19 ==> part[v] == if PLACE[v] < i then sizes[v] else 0
  }

  lemma {:induction false} SizesRead(sizes: seq<nat>, i: nat, n: nat, part: seq<nat>, rest: nat, at: nat, end: nat)
    requires AreSizes(sizes, n) && i <= n && ReadUpTo(part, sizes, i) && IsLengths(part)
    requires end == at + SizesBits(sizes, i, n).len
    ensures Sizes(Stream(Before(SizesBits(sizes, i, n), rest), at), i, n, part) == Sized(sizes, Stream(rest, end))
    decreases n - i
  {
    if i == n {
      assert part == sizes;
    } else {
      var v, size := ORDER[i], sizes[ORDER[i]];
      var next := Before(SizesBits(sizes, i + 1, n), rest);
      OrderIsPermutation(i);
      BeforeCat(Code(size, 3), SizesBits(sizes, i + 1, n), rest);
      SizeReads(Before(Code(size, 3), next), size, next, at, at + 3);
      OneMoreSize(part, sizes, i, v);
      SizesUnfold(Stream(Before(Code(size, 3), next), at), i, n, part, size, Stream(next, at + 3));
      SizesRead(sizes, i + 1, n, part[v := size], rest, at + 3, end);
    }
  }

  lemma SizeReads(val: nat, size: nat, rest: nat, at: nat, next: nat)
    requires size <= 7 && val == Before(Code(size, 3), rest) && next == at + 3
    ensures Stream(val, at).Next(3) == size && Stream(val, at).After(3) == Stream(rest, next)
  {
    assert Pow2(3) == 8;
    FieldReads(size, 3, rest);
  }

  lemma OneMoreSize(part: seq<nat>, sizes: seq<nat>, i: nat, v: nat)
    requires i < 19 && v == ORDER[i] && v < 19 && ReadUpTo(part, sizes, i)
    ensures ReadUpTo(part[v := sizes[v]], sizes, i + 1)
  {
    OrderIsPermutation(i);
    forall w | 0 <= w < 19 ensures part[v := sizes[v]][w] == if PLACE[w] < i + 1 then sizes[w] else 0 {
      OrderIsPermutation(w);
    }
  }

  // ----- The head of the block -----

  /** A head that stands for these codes. */
  datatype Head = Head(codes: Codes, sizes: seq<nat>, hclen: nat, ops: seq<LengthOp>) {
    predicate Valid() {
      && Usable(codes) && 257 <= |codes.lengths| && 1 <= |codes.distances|
      && AreSizes(sizes, hclen) && 4 <= hclen && IsLengths(sizes) && Accepted(sizes)
      && AreOps(sizes, ops, []) && AllLengths(sizes, ops, []) == codes.lengths + codes.distances
    }
  }

  function HeadBits(h: Head): Code
    requires h.Valid()
  {
    CountBits(|h.codes.lengths|, |h.codes.distances|, h.hclen, ListsBits(h))
  }

  function CountBits(hlit: nat, hdist: nat, hclen: nat, more: Code): Code
    requires hlit >= 257 && hdist >= 1 && hclen >= 4
  {
    Cat(Code(hlit - 257, 5), Cat(Code(hdist - 1, 5), Cat(Code(hclen - 4, 4), more)))
  }

  /** What follows the three counts. */
  function ListsBits(h: Head): Code
    requires h.Valid()
  {
    Cat(SizesBits(h.sizes, 0, h.hclen), OpsBits(h.sizes, h.ops, []))
  }

  lemma ThreeFields(a: Code, b: Code, d: Code, more: Code, rest: nat, at: nat)
    requires a.Fits() && b.Fits() && d.Fits() && a.len == b.len == 5 && d.len == 4
    ensures var r := Stream(Before(Cat(a, Cat(b, Cat(d, more))), rest), at);
            && r.Next(5) == a.val && r.After(5).Next(5) == b.val && r.After(5).After(5).Next(4) == d.val
            && r.After(5).After(5).After(4) == Stream(Before(more, rest), at + 14)
  {
    BeforeCat(a, Cat(b, Cat(d, more)), rest);
    BeforeCat(b, Cat(d, more), rest);
    BeforeCat(d, more, rest);
    FieldReads(a.val, 5, Before(b, Before(d, Before(more, rest))));
    FieldReads(b.val, 5, Before(d, Before(more, rest)));
    FieldReads(d.val, 4, Before(more, rest));
  }

  lemma CountsAre(r: Stream, hlit: nat, hdist: nat, hclen: nat, rest: Stream)
    requires r.Next(5) + 257 == hlit && r.After(5).Next(5) + 1 == hdist && r.After(5).After(5).Next(4) + 4 == hclen
    requires r.After(5).After(5).After(4) == rest
    ensures CountsOf(r) == Counts(hlit, hdist, hclen, rest)
  {
  }

  lemma CountsRead(hlit: nat, hdist: nat, hclen: nat, more: Code, rest: nat, at: nat)
    requires 257 <= hlit <= 288 && 1 <= hdist <= 32 && 4 <= hclen <= 19
    ensures CountsOf(Stream(Before(CountBits(hlit, hdist, hclen, more), rest), at))
         == Counts(hlit, hdist, hclen, Stream(Before(more, rest), at + 14))
  {
    var r := Stream(Before(CountBits(hlit, hdist, hclen, more), rest), at);
    assert Pow2(5) == 32 && Pow2(4) == 16;
    ThreeFields(Code(hlit - 257, 5), Code(hdist - 1, 5), Code(hclen - 4, 4), more, rest, at);
    CountsAre(r, hlit, hdist, hclen, Stream(Before(more, rest), at + 14));
  }

  /** Reading the head gives the codes it stands for. */
  lemma HeadReads(h: Head, rest: nat, at: nat, end: nat)
    requires h.Valid() && end == at + HeadBits(h).len
    ensures ReadTables(Stream(Before(HeadBits(h), rest), at)) == Tables(h.codes, Stream(rest, end))
  {
    CountsRead(|h.codes.lengths|, |h.codes.distances|, h.hclen, ListsBits(h), rest, at);
    ListsRead(h, rest, at + 14, end);
  }

  lemma ListsRead(h: Head, rest: nat, at: nat, end: nat)
    requires h.Valid() && end == at + ListsBits(h).len
    ensures TablesFrom(Sizes(Stream(Before(ListsBits(h), rest), at), 0, h.hclen, ZeroSizes()), |h.codes.lengths|,
                       |h.codes.distances|)
         == Tables(h.codes, Stream(rest, end))
  {
    var s, o := SizesBits(h.sizes, 0, h.hclen), OpsBits(h.sizes, h.ops, []);
    var mid := at + s.len;
    BeforeCat(s, o, rest);
    SizesRead(h.sizes, 0, h.hclen, ZeroSizes(), Before(o, rest), at, mid);
    OwnLengthsRead(h, rest, mid, end);
  }

  lemma OwnLengthsRead(h: Head, rest: nat, at: nat, end: nat)
    requires h.Valid() && end == at + OpsBits(h.sizes, h.ops, []).len
    ensures TablesFrom(Sized(h.sizes, Stream(Before(OpsBits(h.sizes, h.ops, []), rest), at)), |h.codes.lengths|,
                       |h.codes.distances|)
         == Tables(h.codes, Stream(rest, end))
  {
    OpsRead(h.sizes, h.ops, [], |h.codes.lengths| + |h.codes.distances|, rest, at, end);
    ListsApart(h, Stream(rest, end), Sized(h.sizes, Stream(Before(OpsBits(h.sizes, h.ops, []), rest), at)));
  }

  lemma ListsApart(h: Head, rest: Stream, sized: Sized)
    requires h.Valid() && sized.sizes == h.sizes
    requires ReadLengths(h.sizes, sized.rest, [], |h.codes.lengths| + |h.codes.distances|)
          == LengthList(h.codes.lengths + h.codes.distances, rest)
    ensures TablesFrom(sized, |h.codes.lengths|, |h.codes.distances|) == Tables(h.codes, rest)
  {
    var all := h.codes.lengths + h.codes.distances;
    assert all[..|h.codes.lengths|] == h.codes.lengths && all[|h.codes.lengths|..] == h.codes.distances;
  }
}
