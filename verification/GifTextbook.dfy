/** LZW as Appendix F of the GIF89a specification has it, and how far the decoder agrees with it.

The textbook decoder reads each code in as many bits as the number of the next string needs, twelve at
most. The dictionary is full at 4096 numbers; an encoder may then go on with the full dictionary for as
long as it likes before it sends a clear code. The decoder gives up on a run that is too long. */
module GifTextbook {
  import opened Bits
  import opened GifLzw

  const FULL := 4096

  /** The strings added since the last clear code, the last string (none: []), whether there was a clear
  code, and how many codes for strings there have been since. */
  datatype Text = Text(added: seq<seq<byte>>, last: seq<byte>, started: bool, run: nat)

  predicate IsText(cs: nat, t: Text) {
    2 <= cs <= 8 && NoEmpty(t.added) && Avail(cs, t.added) <= FULL && (t.last == [] ==> t.added == [])
  }

  function BitLength(n: nat): (length: nat)
    ensures n > 0 ==> length > 0
  {
    if n == 0 then 0 else 1 + BitLength(n / 2)
  }

  /** The bits of the next code. */
  function Width(cs: nat, t: Text): (width: nat)
    ensures width > 0
  {
    var next := Avail(cs, t.added);
    if next < FULL then BitLength(next) else 12
  }

  /** The dictionary with one more string, unless it is full. */
  function Added(cs: nat, added: seq<seq<byte>>, word: seq<byte>): seq<seq<byte>> {
    if Avail(cs, added) < FULL then added + [word] else added
  }

  datatype Turn = On(text: Text, word: seq<byte>) | Off(fine: bool)

  function Read(cs: nat, t: Text, code: nat): Turn
    requires IsText(cs, t)
  {
    var next := Avail(cs, t.added);
    if code == Clear(cs) then On(Text([], [], true, 0), [])
    else if code == Clear(cs) + 1 then Off(true)
    else if !t.started then Off(false)
    else if code < next then
      var word := WordOf(cs, t.added, code);
      On(Text(if t.last == [] then [] else Added(cs, t.added, t.last + [word[0]]), word, true, t.run + 1), word)
    else if code == next < FULL && t.last != [] then
      var word := t.last + [t.last[0]];
      On(Text(t.added + [word], word, true, t.run + 1), word)
    else Off(false)
  }

  lemma ReadIsText(cs: nat, t: Text, code: nat)
    requires IsText(cs, t) && Read(cs, t, code).On?
    ensures IsText(cs, Read(cs, t, code).text)
  {
    Pow2Monotone(cs, 8);
    assert Pow2(8) == 256;
  }

  /** All strings, whether the end was reached without an error, and the longest run. */
  datatype Story = Story(word: seq<byte>, fine: bool, longest: nat)

  function Tell(cs: nat, t: Text, r: nat, n: nat): Story
    requires IsText(cs, t)
    decreases n
  {
    var width := Width(cs, t);
    if n < width then Story([], true, t.run) else
      var turn := Read(cs, t, Low(r, width));
      if turn.Off? then Story([], turn.fine, t.run) else
        ReadIsText(cs, t, Low(r, width));
        var rest := Tell(cs, turn.text, Drop(r, width), n - width);
        Story(turn.word + rest.word, rest.fine, Max(t.run, rest.longest))
  }

  function Max(a: nat, b: nat): nat {
    if a < b then b else a
  }

  /** The whole of a raster whose bits are the first n of r. */
  function Textbook(cs: nat, r: nat, n: nat): Story
    requires 2 <= cs <= 8
  {
    FreshText(cs, false);
    Tell(cs, Text([], [], false, 0), r, n)
  }

  lemma FreshText(cs: nat, started: bool)
    requires 2 <= cs <= 8
    ensures 4 <= Clear(cs) <= 256 && IsText(cs, Text([], [], started, 0))
  {
    Pow2Monotone(2, cs);
    Pow2Monotone(cs, 8);
    assert Pow2(8) == 256;
    assert Pow2(2) == 4;
  }

  /** A run of this many codes for strings does not fit the decoder's table. */
  function TooLong(cs: nat): nat
    requires cs <= 8
  {
    Pow2Monotone(cs, 8);
    assert Pow2(8) == 256;
    MAX_CODES - Clear(cs)
  }

  // ----- Widths -----

  lemma {:induction false} BitLengthIs(n: nat, w: nat)
    requires n < Pow2(w) && (w == 0 || Pow2(w - 1) <= n)
    ensures BitLength(n) == w
  {
    if w > 0 {
      BitLengthIs(n / 2, w - 1);
    }
  }

  /** The decoder's width is the length of the next string's number, up to twelve bits. */
  predicate WidthOk(size: nat, avail: nat) {
    1 <= size <= 12 && Pow2(size - 1) <= avail && (avail < Pow2(size) || size == 12)
  }

  /** The mask test keeps the width so, as strings are added one by one. */
  lemma WidthRule(size: nat, avail: nat)
    requires WidthOk(size, avail) && avail < MAX_CODES
    ensures WidthOk(Grow(size, avail + 1), avail + 1) && Grow(size, avail) == size
  {
    var next := avail + 1;
    PowersUpToTwelve();
    if size < 12 {
      Pow2Monotone(size, 11);
      MaskTest(size, avail);
      if next < Pow2(size) {
        MaskTest(size, next);
      } else {
        LowPow2(size);
      }
    } else if avail <= 0xFFF {
      MaskTest(12, avail);
      if next <= 0xFFF {
        MaskTest(12, next);
      }
    }
  }

  lemma PowersUpToTwelve()
    ensures Pow2(11) == 2048 && Pow2(12) == 4096
  {
    assert Pow2(8) == 256;
  }

  lemma MaskTest(size: nat, avail: nat)
    requires 0 < avail < Pow2(size)
    ensures Low(avail, size) == avail
  {
    LowSmall(avail, size);
  }

  lemma {:induction false} LowPow2(n: nat)
    ensures Low(Pow2(n), n) == 0
  {
    if n > 0 {
      LowPow2(n - 1);
    }
  }

  lemma WidthsAgree(cs: nat, t: Text, size: nat, avail: nat)
    requires WidthOk(size, avail) && Avail(cs, t.added) == (if avail <= FULL then avail else FULL)
    ensures Width(cs, t) == size
  {
    PowersUpToTwelve();
    if avail < FULL {
      BitLengthIs(avail, size);
    } else if size < 12 {
      Pow2Monotone(size, 11);
    }
  }

  // ----- Agreement -----

  /** The strings that have numbers below 4096. */
  predicate Begins(cs: nat, added: seq<seq<byte>>, entries: seq<seq<byte>>) {
    && added <= entries
    && Avail(cs, added) == if Avail(cs, entries) <= FULL then Avail(cs, entries) else FULL
  }

  /** The decoder's dictionary and the textbook's at the same place, before a run has become too long. */
  predicate Agree(cs: nat, b: Book, t: Text) {
    && IsBook(cs, b) && IsText(cs, t) && b.last == t.last && b.started == t.started && Begins(cs, t.added, b.entries)
    && WidthOk(b.size, Avail(cs, b.entries)) && |b.entries| == (if t.run == 0 then 0 else t.run - 1)
    && (t.run == 0 <==> t.last == [])
  }

  lemma StartsAgree(cs: nat, started: bool)
    requires 2 <= cs <= 8
    ensures Agree(cs, Cleared(cs, started), Text([], [], started, 0))
  {
    FreshText(cs, started);
    assert Pow2(cs + 1) == 2 * Pow2(cs);
  }

  /** The decoder halts where the textbook does, and besides where the run becomes too long; else both
  give the same string. */
  predicate SameTurn(cs: nat, b: Book, t: Text, code: nat)
    requires IsBook(cs, b) && IsText(cs, t)
  {
    match Read(cs, t, code)
    case Off(fine) => Step(cs, b, code).Halt? && Step(cs, b, code).status != TooManyCodes
      && (fine <==> Step(cs, b, code).status == Finished)
    case On(text, word) =>
      if text.run == TooLong(cs) then Step(cs, b, code) == Halt(TooManyCodes)
      else Step(cs, b, code).More? && Step(cs, b, code).word == word && Agree(cs, Step(cs, b, code).book, text)
  }

  lemma BeginsGrows(cs: nat, added: seq<seq<byte>>, entries: seq<seq<byte>>, word: seq<byte>)
    requires Begins(cs, added, entries)
    ensures Begins(cs, Added(cs, added, word), entries + [word])
  {
    if Avail(cs, added) < FULL {
      assert added == entries;
    }
  }

  lemma SameWord(cs: nat, added: seq<seq<byte>>, entries: seq<seq<byte>>, code: nat)
    requires added <= entries && IsLive(cs, added, code)
    ensures IsLive(cs, entries, code) && WordOf(cs, entries, code) == WordOf(cs, added, code)
  {
  }

  lemma FirstTurn(cs: nat, b: Book, t: Text, code: nat)
    requires Agree(cs, b, t) && t.run < TooLong(cs) && t.started && t.last == [] && IsLive(cs, t.added, code)
    ensures SameTurn(cs, b, t, code)
  {
    StepIsBook(cs, b, code);
    ReadIsText(cs, t, code);
    WidthRule(b.size, Avail(cs, b.entries));
  }

  /** A code for a string in the textbook's dictionary. */
  lemma StringTurn(cs: nat, b: Book, t: Text, code: nat)
    requires Agree(cs, b, t) && t.run < TooLong(cs) && t.started && t.last != [] && IsLive(cs, t.added, code)
    ensures SameTurn(cs, b, t, code)
  {
    SameWord(cs, t.added, b.entries, code);
    if Avail(cs, b.entries) < MAX_CODES {
      var word := Extension(cs, b, code);
      SameWord(cs, b.entries, b.entries + [word], code);
      AddingTurn(cs, b, t, code, word);
    }
  }

  lemma AddingTurn(cs: nat, b: Book, t: Text, code: nat, word: seq<byte>)
    requires Agree(cs, b, t) && t.run + 1 < TooLong(cs) && Avail(cs, b.entries) < MAX_CODES
    requires Step(cs, b, code).More? && Step(cs, b, code).book.entries == b.entries + [word] && b.last != []
    requires Step(cs, b, code).book.size == Grow(b.size, Avail(cs, b.entries) + 1) && Step(cs, b, code).book.started
    requires Read(cs, t, code)
         == On(Text(Added(cs, t.added, word), Step(cs, b, code).book.last, true, t.run + 1), Step(cs, b, code).word)
    ensures SameTurn(cs, b, t, code)
  {
    ReadIsText(cs, t, code);
    BothAdd(cs, b, t, code, word);
  }

  /** The code of the string being added. */
  lemma OwnTurn(cs: nat, b: Book, t: Text, code: nat)
    requires Agree(cs, b, t) && t.run < TooLong(cs) && t.started && t.last != [] && code == Avail(cs, t.added) < FULL
    ensures SameTurn(cs, b, t, code)
  {
    assert t.added == b.entries;
    AddingTurn(cs, b, t, code, Extension(cs, b, code));
  }

  lemma BothAdd(cs: nat, b: Book, t: Text, code: nat, word: seq<byte>)
    requires Agree(cs, b, t) && Avail(cs, b.entries) < MAX_CODES && Step(cs, b, code).More?
    ensures Begins(cs, Added(cs, t.added, word), b.entries + [word]) && IsBook(cs, Step(cs, b, code).book)
    ensures WidthOk(Grow(b.size, Avail(cs, b.entries) + 1), Avail(cs, b.entries) + 1)
  {
    StepIsBook(cs, b, code);
    BeginsGrows(cs, t.added, b.entries, word);
    WidthRule(b.size, Avail(cs, b.entries));
  }

  lemma TurnsAgree(cs: nat, b: Book, t: Text, code: nat)
    requires Agree(cs, b, t) && t.run < TooLong(cs) && code < Pow2(b.size)
    ensures SameTurn(cs, b, t, code)
  {
    var next := Avail(cs, t.added);
    if code == Clear(cs) {
      StartsAgree(cs, true);
    } else if code != Clear(cs) + 1 && t.started {
      if code < next {
        if t.last == [] {
          FirstTurn(cs, b, t, code);
        } else {
          StringTurn(cs, b, t, code);
        }
      } else if code == next < FULL && t.last != [] {
        OwnTurn(cs, b, t, code);
      } else {
        NoTurn(cs, b, t, code);
      }
    }
  }

  /** Neither decoder knows the code. */
  lemma NoTurn(cs: nat, b: Book, t: Text, code: nat)
    requires Agree(cs, b, t) && code < Pow2(b.size) && t.started && code >= Avail(cs, t.added)
    requires code == Avail(cs, t.added) < FULL ==> t.last == []
    ensures Step(cs, b, code) == Halt(IllegalCode) && Read(cs, t, code) == Off(false)
  {
    PowersUpToTwelve();
    Pow2Monotone(b.size, 12);
  }

  /** The same run of codes, told by both decoders: the same strings and the same end, unless a run of codes
  for strings is too long for the decoder's table. Then, and only then, it stops with TooManyCodes, having
  given the first part of the strings. */
  predicate SameStory(cs: nat, d: Decoded, story: Story)
    requires cs <= 8
  {
    && (d.status == TooManyCodes <==> story.longest >= TooLong(cs))
    && (d.status != TooManyCodes ==> d.word == story.word && (d.status == Finished <==> story.fine))
    && d.word <= story.word
  }

  lemma {:induction false} StoriesAgree(cs: nat, b: Book, t: Text, r: nat, n: nat)
    requires Agree(cs, b, t) && t.run < TooLong(cs)
    ensures SameStory(cs, Decode(cs, b, r, n), Tell(cs, t, r, n))
    decreases n
  {
    WidthsAgree(cs, t, b.size, Avail(cs, b.entries));
    if b.size <= n {
      var code, rest, left := Low(r, b.size), Drop(r, b.size), n - b.size;
      TurnsAgree(cs, b, t, code);
      match Read(cs, t, code) {
        case Off(fine) =>
          StoryStops(cs, b, t, r, n, code);
        case On(text, word) =>
          ReadIsText(cs, t, code);
          if text.run == TooLong(cs) {
            LongestFromHere(cs, text, rest, left);
            StoryIsRefused(cs, b, t, r, n, code, text, word, Tell(cs, text, rest, left));
          } else {
            var book := Step(cs, b, code).book;
            StoriesAgree(cs, book, text, rest, left);
            StoryGoesOn(cs, b, t, r, n, code, book, text, word, Decode(cs, book, rest, left),
                        Tell(cs, text, rest, left));
          }
      }
    } else {
      StoryIsOver(cs, b, t, r, n);
    }
  }

  lemma StoryIsOver(cs: nat, b: Book, t: Text, r: nat, n: nat)
    requires Agree(cs, b, t) && t.run < TooLong(cs) && Width(cs, t) == b.size && n < b.size
    ensures SameStory(cs, Decode(cs, b, r, n), Tell(cs, t, r, n))
  {
  }

  lemma StoryStops(cs: nat, b: Book, t: Text, r: nat, n: nat, code: nat)
    requires Agree(cs, b, t) && t.run < TooLong(cs) && Width(cs, t) == b.size <= n && code == Low(r, b.size)
    requires Read(cs, t, code).Off? && SameTurn(cs, b, t, code)
    ensures SameStory(cs, Decode(cs, b, r, n), Tell(cs, t, r, n))
  {
  }

  /** The textbook's story, when the next code goes on. */
  lemma TellNext(cs: nat, t: Text, r: nat, n: nat, width: nat, text: Text, word: seq<byte>, rest: Story)
    requires IsText(cs, t) && IsText(cs, text) && Width(cs, t) == width <= n
    requires Read(cs, t, Low(r, width)) == On(text, word) && rest == Tell(cs, text, Drop(r, width), n - width)
    ensures Tell(cs, t, r, n) == Story(word + rest.word, rest.fine, Max(t.run, rest.longest))
  {
  }

  /** The decoder's, when the code does. */
  lemma DecodeNext(cs: nat, b: Book, r: nat, n: nat, book: Book, word: seq<byte>, rest: Decoded)
    requires IsBook(cs, b) && IsBook(cs, book) && b.size <= n && Step(cs, b, Low(r, b.size)) == More(book, word)
    requires rest == Decode(cs, book, Drop(r, b.size), n - b.size)
    ensures Decode(cs, b, r, n) == Decoded(word + rest.word, rest.status)
  {
  }

  lemma StoryIsRefused(cs: nat, b: Book, t: Text, r: nat, n: nat, code: nat, text: Text, word: seq<byte>, rest: Story)
    requires Agree(cs, b, t) && t.run < TooLong(cs) && Width(cs, t) == b.size <= n && code == Low(r, b.size)
    requires Read(cs, t, code) == On(text, word) && IsText(cs, text) && Step(cs, b, code) == Halt(TooManyCodes)
    requires rest == Tell(cs, text, Drop(r, b.size), n - b.size) && rest.longest >= TooLong(cs)
    ensures SameStory(cs, Decode(cs, b, r, n), Tell(cs, t, r, n))
  {
    TellNext(cs, t, r, n, b.size, text, word, rest);
    assert Decode(cs, b, r, n) == Decoded([], TooManyCodes);
  }

  lemma StoryGoesOn(cs: nat, b: Book, t: Text, r: nat, n: nat, code: nat, book: Book, text: Text, word: seq<byte>,
                    decoded: Decoded, rest: Story)
    requires Agree(cs, b, t) && t.run < TooLong(cs) && Width(cs, t) == b.size <= n && code == Low(r, b.size)
    requires Read(cs, t, code) == On(text, word) && IsText(cs, text) && Step(cs, b, code) == More(book, word)
    requires IsBook(cs, book) && decoded == Decode(cs, book, Drop(r, b.size), n - b.size)
    requires rest == Tell(cs, text, Drop(r, b.size), n - b.size) && SameStory(cs, decoded, rest)
    ensures SameStory(cs, Decode(cs, b, r, n), Tell(cs, t, r, n))
  {
    TellNext(cs, t, r, n, b.size, text, word, rest);
    DecodeNext(cs, b, r, n, book, word, decoded);
    SameAfter(cs, decoded, rest, word, t.run);
  }

  lemma SameAfter(cs: nat, decoded: Decoded, rest: Story, word: seq<byte>, run: nat)
    requires cs <= 8 && SameStory(cs, decoded, rest) && run < TooLong(cs)
    ensures SameStory(cs, Decoded(word + decoded.word, decoded.status),
                      Story(word + rest.word, rest.fine, Max(run, rest.longest)))
  {
  }

  lemma LongestFromHere(cs: nat, t: Text, r: nat, n: nat)
    requires IsText(cs, t)
    ensures Tell(cs, t, r, n).longest >= t.run
  {
  }

  /** For the code sizes of the standard, the decoder gives what the textbook gives, but for too long a run. */
  lemma DecoderIsTextbook(cs: nat, r: nat, n: nat)
    requires 2 <= cs <= 8
    ensures IsBook(cs, Cleared(cs, false)) && SameStory(cs, Decode(cs, Cleared(cs, false), r, n), Textbook(cs, r, n))
  {
    StartsAgree(cs, false);
    StoriesAgree(cs, Cleared(cs, false), Text([], [], false, 0), r, n);
  }

  // ----- A stream that the decoder refuses -----

  /** Zero bits for ever: the same code for a string over and over. */
  lemma {:induction false} ZerosAreFine(cs: nat, t: Text, n: nat, k: nat)
    requires IsText(cs, t) && t.started && 12 * k <= n
    ensures Tell(cs, t, 0, n).fine && Tell(cs, t, 0, n).longest >= t.run + k
    decreases n
  {
    WidthBound(cs, t);
    var width := Width(cs, t);
    LowSmall(0, width);
    DropSmall(0, width);
    if width <= n {
      ReadIsText(cs, t, 0);
      assert Read(cs, t, 0).On?;
      var text := Read(cs, t, 0).text;
      ZerosAreFine(cs, text, n - width, if k == 0 then 0 else k - 1);
    }
  }

  lemma WidthBound(cs: nat, t: Text)
    requires IsText(cs, t)
    ensures Width(cs, t) <= 12
  {
    PowersUpToTwelve();
    if Avail(cs, t.added) < FULL {
      BitLengthBound(Avail(cs, t.added), 12);
    }
  }

  lemma {:induction false} BitLengthBound(n: nat, w: nat)
    requires n < Pow2(w)
    ensures BitLength(n) <= w
  {
    if n > 0 {
      BitLengthBound(n / 2, w - 1);
    }
  }

  /** A clear code and then 8192 times the first string: right by the textbook, an error to the decoder. */
  lemma DecoderRefusesLongRun(cs: nat, n: nat)
    requires 2 <= cs <= 8 && 12 * 8193 <= n
    ensures Textbook(cs, Clear(cs), n).fine && Textbook(cs, Clear(cs), n).longest >= TooLong(cs)
    ensures IsBook(cs, Cleared(cs, false)) && Decode(cs, Cleared(cs, false), Clear(cs), n).status == TooManyCodes
  {
    StartsAgree(cs, false);
    ClearThenZeros(cs, n, 8192);
    DecoderIsTextbook(cs, Clear(cs), n);
  }

  lemma ClearThenZeros(cs: nat, n: nat, k: nat)
    requires 2 <= cs <= 8 && 12 * (k + 1) <= n
    ensures Textbook(cs, Clear(cs), n).fine && Textbook(cs, Clear(cs), n).longest >= k
  {
    FreshText(cs, false);
    FreshText(cs, true);
    ClearAlone(cs);
    var start := Text([], [], false, 0);
    var rest := Tell(cs, Text([], [], true, 0), 0, n - (cs + 1));
    assert Read(cs, start, Clear(cs)) == On(Text([], [], true, 0), []);
    assert Tell(cs, start, Clear(cs), n) == Story([] + rest.word, rest.fine, Max(0, rest.longest));
    ZerosAreFine(cs, Text([], [], true, 0), n - (cs + 1), k);
  }

  lemma ClearAlone(cs: nat)
    requires 2 <= cs <= 8
    ensures Width(cs, Text([], [], false, 0)) == cs + 1
    ensures Low(Clear(cs), cs + 1) == Clear(cs) && Drop(Clear(cs), cs + 1) == 0
  {
    StartsAgree(cs, false);
    WidthsAgree(cs, Text([], [], false, 0), cs + 1, Clear(cs) + 2);
    LowSmall(Clear(cs), cs + 1);
    DropSmall(Clear(cs), cs + 1);
  }
}
