/** Blocks item by item: what a block stands for is where its loop gets to, and NeverEnds is said of exactly the
blocks whose loop goes on for ever. */
module BlockRuns {
  import opened Bits
  import opened FixedCode
  import opened FixedTables
  import opened BlockFormat

  datatype State = Going(r: Stream, out: seq<byte>) | Over(result: Inflated)

  /** One turn of the loop. */
  ghost function Turn(c: Codes, r: Stream, out: seq<byte>): State
    requires c.Valid()
  {
    var item := NextItem(c, r);
    if item.Wrong? then Over(Bad(BadCode))
    else if item.End? then Over(Done(out, item.rest))
    else
      var grown := Grow(item, out);
      if grown.Refused? then Over(Bad(grown.error)) else Going(item.rest, grown.out)
  }

  /** A block is its first turn and the rest of it. */
  lemma TurnOfBlock(c: Codes, r: Stream, out: seq<byte>, next: State)
    requires c.Valid() && next == Turn(c, r, out)
    ensures next.Over? ==> Block(c, r, out) == next.result != Bad(NeverEnds)
    ensures next.Going? && r.val == 0 ==> Block(c, r, out) == Bad(NeverEnds)
    ensures next.Going? && r.val > 0 ==> next.r.val < r.val && Block(c, r, out) == Block(c, next.r, next.out)
  {
    ItemProgress(c, r);
  }

  ghost function Next(c: Codes, s: State): State
    requires c.Valid()
  {
    if s.Over? then s else Turn(c, s.r, s.out)
  }

  /** The state after k more turns. */
  ghost function Run(c: Codes, s: State, k: nat): State
    requires c.Valid()
    decreases k
  {
    if k == 0 then s else Run(c, Next(c, s), k - 1)
  }

  lemma {:induction false} OverStays(c: Codes, s: State, k: nat)
    requires c.Valid() && s.Over?
    ensures Run(c, s, k) == s
    decreases k
  {
    if k > 0 {
      OverStays(c, s, k - 1);
    }
  }

  /** Without another set bit the same item comes again and again. */
  lemma ZerosRepeat(c: Codes, r: Stream, s: Stream)
    requires c.Valid() && r.val == s.val == 0
    ensures match NextItem(c, r)
            case Byte(b, _) => NextItem(c, s).Byte? && NextItem(c, s).b == b
            case Back(length, distance, _) =>
              NextItem(c, s).Back? && NextItem(c, s).length == length && NextItem(c, s).distance == distance
            case End(_) => NextItem(c, s).End?
            case Wrong => NextItem(c, s).Wrong?
  {
  }

  /** A turn without set bits that goes on is followed by another. */
  lemma GoesOnAgain(c: Codes, s: State, next: State)
    requires c.Valid() && s.Going? && s.r.val == 0 && next == Next(c, s) && next.Going?
    ensures next.r.val == 0 && Next(c, next).Going?
  {
    ItemProgress(c, s.r);
    ZerosRepeat(c, s.r, next.r);
    GrowsAgain(NextItem(c, s.r), NextItem(c, next.r), s.out);
  }

  lemma {:induction false} GoesOn(c: Codes, s: State, k: nat)
    requires c.Valid() && s.Going? && s.r.val == 0 && Next(c, s).Going?
    ensures Run(c, s, k).Going?
    decreases k
  {
    if k > 0 {
      var next := Next(c, s);
      GoesOnAgain(c, s, next);
      GoesOn(c, next, k - 1);
    }
  }

  lemma GrowsAgain(item: Item, again: Item, out: seq<byte>)
    requires || (item.Byte? && again.Byte?)
             || (item.Back? && again.Back? && item.length == again.length && item.distance == again.distance)
    requires Grow(item, out).Grown?
    ensures Grow(again, Grow(item, out).out).Grown?
  {
  }

  /** A block that never ends gets to a state without set bits that goes on. */
  lemma {:induction false} Reaches(c: Codes, r: Stream, out: seq<byte>, result: Inflated) returns (k: nat, s: State)
    requires c.Valid() && result == Block(c, r, out) && result == Bad(NeverEnds)
    ensures Run(c, Going(r, out), k) == s && s.Going? && s.r.val == 0 && Turn(c, s.r, s.out).Going?
    decreases r.val
  {
    var next := Turn(c, r, out);
    TurnOfBlock(c, r, out, next);
    if r.val == 0 {
      k, s := 0, Going(r, out);
    } else {
      k, s := Reaches(c, next.r, next.out, result);
      k := k + 1;
    }
  }

  /** Turns after turns. */
  lemma {:induction false} RunFurther(c: Codes, s: State, j: nat, m: nat, total: nat)
    requires c.Valid() && total == j + m
    ensures Run(c, s, total) == Run(c, Run(c, s, j), m)
    decreases j
  {
    if j > 0 {
      RunFurther(c, Next(c, s), j - 1, m, total - 1);
    } else {
      assert total == m;
    }
  }

  lemma NotYetOver(c: Codes, s: State, k: nat, j: nat)
    requires c.Valid() && k <= j && Run(c, s, j).Going?
    ensures Run(c, s, k).Going?
  {
    RunFurther(c, s, k, j - k, j);
    if Run(c, s, k).Over? {
      OverStays(c, Run(c, s, k), j - k);
    }
  }

  /** A block that never ends goes on after any number of turns. */
  lemma NeverEnding(c: Codes, r: Stream, out: seq<byte>, k: nat)
    requires c.Valid() && Block(c, r, out) == Bad(NeverEnds)
    ensures Run(c, Going(r, out), k).Going?
  {
    var j, s := Reaches(c, r, out, Bad(NeverEnds));
    if k <= j {
      NotYetOver(c, Going(r, out), k, j);
    } else {
      RunFurther(c, Going(r, out), j, k - j, k);
      GoesOn(c, s, k - j);
    }
  }

  /** A block that does not go on for ever is over after some number of turns, with its result. */
  lemma {:induction false} Ending(c: Codes, r: Stream, out: seq<byte>, result: Inflated) returns (k: nat)
    requires c.Valid() && result == Block(c, r, out) != Bad(NeverEnds)
    ensures Run(c, Going(r, out), k) == Over(result)
    decreases r.val
  {
    var next := Turn(c, r, out);
    TurnOfBlock(c, r, out, next);
    k := 0;
    if next.Going? {
      k := Ending(c, next.r, next.out, result);
    }
    k := k + 1;
  }

  /** The block's meaning is the outcome of its loop; NeverEnds means exactly that there is none. */
  lemma BlockIsRun(c: Codes, r: Stream, out: seq<byte>)
    requires c.Valid()
    ensures Block(c, r, out) == Bad(NeverEnds) <==> forall k: nat :: Run(c, Going(r, out), k).Going?
    ensures Block(c, r, out) != Bad(NeverEnds) ==>
              exists k: nat :: Run(c, Going(r, out), k) == Over(Block(c, r, out))
  {
    if Block(c, r, out) == Bad(NeverEnds) {
      forall k: nat ensures Run(c, Going(r, out), k).Going? {
        NeverEnding(c, r, out, k);
      }
    } else {
      var k := Ending(c, r, out, Block(c, r, out));
    }
  }

  // ----- References without a distance -----

  /** The first length symbol and then distance symbol 30: the program copies bytes onto themselves. */
  lemma NoDistanceInput(rest: nat, at: nat, out: seq<byte>)
    ensures FixedBlock(Stream(Before(SymbolCode(257), Before(Code(Rev(30, 5), 5), rest)), at), out) == Bad(NoDistance)
  {
    var c, d := FixedCodes(), Code(Rev(30, 5), 5);
    var r, s := Stream(Before(SymbolCode(257), Before(d, rest)), at), Stream(Before(d, rest), at + SymbolCode(257).len);
    FixedSymbolReads(257, Before(d, rest), at);
    FirstLength(s);
    FixedDistanceReads(30, rest, s.at);
    ReadBases(30);
    assert NextItem(c, r) == Distance(c, 3, s);
    assert Distance(c, 3, s).Back? && Distance(c, 3, s).length == 3 && Distance(c, 3, s).distance == 0;
    NoDistanceItem(c, r, out);
  }

  lemma NoDistanceItem(c: Codes, r: Stream, out: seq<byte>)
    requires c.Valid() && NextItem(c, r).Back? && NextItem(c, r).length > 0 && NextItem(c, r).distance == 0
    ensures Block(c, r, out) == Bad(NoDistance)
  {
    TurnOfBlock(c, r, out, Turn(c, r, out));
  }

  lemma FirstLength(s: Stream)
    ensures FixedCodes().Valid() && Reference(FixedCodes(), 0, s) == Distance(FixedCodes(), 3, s)
  {
    FixedLengthsAre();
    assert READ_LENGTH_BASE[0] == 3 && READ_LENGTH_EXTRA[0] == 0;
  }
}
