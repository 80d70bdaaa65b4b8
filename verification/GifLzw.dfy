/** The decoder's LZW over strings instead of tables: a dictionary that grows by one string with every
code, up to 8192 numbers, and codes that widen by the decoder's own mask test. */
module GifLzw {
  import opened Bits

  const MAX_CODES := 8192

  datatype Status = Finished | NoClearCode | TooManyCodes | IllegalCode

  /** The strings added since the last clear code, the last string (none: []), and the code width. */
  datatype Book = Book(entries: seq<seq<byte>>, last: seq<byte>, size: nat, started: bool)

  function Clear(cs: nat): (c: nat)
    ensures c > 0
  {
    Pow2(cs)
  }

  /** The number the next string will get. */
  function Avail(cs: nat, entries: seq<seq<byte>>): nat {
    Clear(cs) + 2 + |entries|
  }

  /** Codes that stand for strings; the two after the single bytes do not. */
  predicate IsLive(cs: nat, entries: seq<seq<byte>>, code: nat) {
    code < Clear(cs) || Clear(cs) + 2 <= code < Avail(cs, entries)
  }

  function WordOf(cs: nat, entries: seq<seq<byte>>, code: nat): seq<byte>
    requires IsLive(cs, entries, code)
  {
    if code < Clear(cs) then [code % 256] else entries[code - Clear(cs) - 2]
  }

  predicate NoEmpty(entries: seq<seq<byte>>) {
    forall i :: 0 <= i < |entries| ==> entries[i] != []
  }

  predicate IsBook(cs: nat, b: Book) {
    cs <= 12 && 1 <= b.size <= 13 && NoEmpty(b.entries) && Avail(cs, b.entries) <= MAX_CODES
    && (b.last == [] ==> b.entries == [])
  }

  function Cleared(cs: nat, started: bool): Book {
    Book([], [], cs + 1, started)
  }

  function Grow(size: nat, avail: nat): nat {
    if Low(avail, size) == 0 && avail <= 0xFFF then size + 1 else size
  }

  datatype Next = More(book: Book, word: seq<byte>) | Halt(status: Status)

  /** The string a code adds: the last one and the first byte of the new one, or of itself. */
  function Extension(cs: nat, b: Book, code: nat): (word: seq<byte>)
    requires IsBook(cs, b) && b.last != [] && (code == Avail(cs, b.entries) || IsLive(cs, b.entries, code))
    ensures word != []
  {
    b.last + [if code == Avail(cs, b.entries) then b.last[0] else WordOf(cs, b.entries, code)[0]]
  }

  /** What one code does. */
  function Step(cs: nat, b: Book, code: nat): Next
    requires IsBook(cs, b)
  {
    var avail := Avail(cs, b.entries);
    if code == Clear(cs) then More(Cleared(cs, true), [])
    else if code == Clear(cs) + 1 then Halt(Finished)
    else if code > avail then Halt(IllegalCode)
    else if !b.started then Halt(NoClearCode)
    else if b.last == [] then
      if code == avail then Halt(IllegalCode) else
        var word := WordOf(cs, b.entries, code);
        More(b.(last := word, size := Grow(b.size, avail)), word)
    else if avail == MAX_CODES then Halt(TooManyCodes)
    else
      var entries := b.entries + [Extension(cs, b, code)];
      var word := WordOf(cs, entries, code);
      More(Book(entries, word, Grow(b.size, avail + 1), true), word)
  }

  lemma GrowBound(size: nat, avail: nat)
    requires 1 <= size <= 13 && 0 < avail
    ensures size <= Grow(size, avail) <= 13
  {
    assert Pow2(13) == 8192;
    if size == 13 {
      LowSmall(avail, 13);
    }
  }

  lemma StepIsBook(cs: nat, b: Book, code: nat)
    requires IsBook(cs, b) && Step(cs, b, code).More?
    ensures IsBook(cs, Step(cs, b, code).book)
  {
    if code != Clear(cs) {
      GrowBound(b.size, Avail(cs, b.entries));
      GrowBound(b.size, Avail(cs, b.entries) + 1);
    }
  }

  datatype Decoded = Decoded(word: seq<byte>, status: Status)

  /** The strings of the codes in n bits, least significant first, up to the end or an error. */
  function Decode(cs: nat, b: Book, r: nat, n: nat): Decoded
    requires IsBook(cs, b)
    decreases n
  {
    if n < b.size then Decoded([], Finished) else
      var step := Step(cs, b, Low(r, b.size));
      if step.Halt? then Decoded([], step.status) else
        StepIsBook(cs, b, Low(r, b.size));
        var rest := Decode(cs, step.book, Drop(r, b.size), n - b.size);
        Decoded(step.word + rest.word, rest.status)
  }
}
