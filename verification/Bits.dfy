/** Bytes and little-endian bit streams.

A stream of bits is the natural number whose binary digits it lists, first bit lowest. Low is a
mask, Drop a right shift, Shl a left shift, and Join the or of a field with what was shifted above
it. A reader that runs past its last byte keeps reading zeros, as the decoder does. */
module Bits {

  type byte = x: int | 0 <= x < 256

  /** Conversion to a byte keeps the low eight bits. */
  function UChar(v: int): byte {
    v % 256
  }

  function One(b: bool): nat {
    if b then 1 else 0
  }

  function Pow2(n: nat): (p: nat)
    ensures p >= 1
  {
    if n == 0 then 1 else 2 * Pow2(n - 1)
  }

  /** v & ((1 << n) - 1) */
  function Low(v: nat, n: nat): (r: nat)
    ensures r < Pow2(n)
  {
    if n == 0 then 0 else v % 2 + 2 * Low(v / 2, n - 1)
  }

  /** v >> n */
  function Drop(v: nat, n: nat): (r: nat)
    ensures r <= v
  {
    if n == 0 then v else Drop(v / 2, n - 1)
  }

  /** v << n */
  function Shl(v: nat, n: nat): (r: nat)
    ensures r >= v
    decreases n
  {
    if n == 0 then v else Shl(2 * v, n - 1)
  }

  /** The low n bits of a, then b: a | (b << n) when a has no more than n bits. */
  function Join(a: nat, n: nat, b: nat): nat {
    if n == 0 then b else a % 2 + 2 * Join(a / 2, n - 1, b)
  }

  function Bit(v: nat, i: nat): nat {
    Drop(v, i) % 2
  }

  // ----- Powers -----

  lemma {:induction false} Pow2Add(m: nat, n: nat)
    ensures Pow2(m + n) == Pow2(m) * Pow2(n)
  {
    if m > 0 {
      Pow2Add(m - 1, n);
    }
  }

  lemma {:induction false} Pow2Monotone(m: nat, n: nat)
    requires m <= n
    ensures Pow2(m) <= Pow2(n)
  {
    if m < n {
      Pow2Monotone(m, n - 1);
    }
  }

  lemma Pow2Of16()
    ensures Pow2(15) == 0x8000 && Pow2(16) == 0x10000
  {
    assert Pow2(8) == 256;
    assert Pow2(12) == 4096;
  }

  lemma {:induction false} ShlIsProduct(v: nat, n: nat)
    ensures Shl(v, n) == v * Pow2(n)
    decreases n
  {
    if n > 0 {
      ShlIsProduct(2 * v, n - 1);
    }
  }

  lemma {:induction false} ShlMonotone(v: nat, w: nat, n: nat)
    ensures v <= w <==> Shl(v, n) <= Shl(w, n)
    decreases n
  {
    if n > 0 {
      ShlMonotone(2 * v, 2 * w, n - 1);
    }
  }

  // ----- Fields -----

  /** A field and what follows it can be told apart. */
  lemma {:induction false} JoinSplit(a: nat, n: nat, b: nat)
    ensures Low(Join(a, n, b), n) == Low(a, n)
    ensures Drop(Join(a, n, b), n) == b
  {
    if n > 0 {
      JoinSplit(a / 2, n - 1, b);
      FirstBit(a % 2, Join(a / 2, n - 1, b));
      assert Join(a, n, b) == a % 2 + 2 * Join(a / 2, n - 1, b);
    }
  }

  lemma FirstBit(bit: nat, rest: nat)
    requires bit < 2
    ensures (bit + 2 * rest) % 2 == bit && (bit + 2 * rest) / 2 == rest
  {
  }

  /** Every stream is its first n bits and the rest. */
  lemma {:induction false} Split(v: nat, n: nat)
    ensures Join(v, n, Drop(v, n)) == v
  {
    if n > 0 {
      Split(v / 2, n - 1);
    }
  }

  lemma {:induction false} LowSmall(v: nat, n: nat)
    ensures v < Pow2(n) <==> Low(v, n) == v
  {
    if n > 0 {
      LowSmall(v / 2, n - 1);
    }
  }

  lemma {:induction false} LowLow(v: nat, m: nat, n: nat)
    requires m <= n
    ensures Low(Low(v, n), m) == Low(v, m)
  {
    if m > 0 {
      LowLow(v / 2, m - 1, n - 1);
      FirstBit(v % 2, Low(v / 2, n - 1));
      assert Low(v, n) == v % 2 + 2 * Low(v / 2, n - 1);
    }
  }

  lemma {:induction false} DropSmall(v: nat, n: nat)
    requires v < Pow2(n)
    ensures Drop(v, n) == 0
  {
    if n > 0 {
      DropSmall(v / 2, n - 1);
    }
  }

  lemma {:induction false} DropBound(v: nat, m: nat, n: nat)
    requires v < Pow2(m + n)
    ensures Drop(v, m) < Pow2(n)
  {
    if m > 0 {
      DropBound(v / 2, m - 1, n);
    }
  }

  lemma {:induction false} DropDrop(v: nat, m: nat, n: nat)
    ensures Drop(Drop(v, m), n) == Drop(v, m + n)
  {
    if m > 0 {
      DropDrop(v / 2, m - 1, n);
    }
  }

  /** Only the low n bits of the first part are used. */
  lemma {:induction false} JoinLow(a: nat, n: nat, b: nat)
    ensures Join(Low(a, n), n, b) == Join(a, n, b)
  {
    if n > 0 {
      JoinLow(a / 2, n - 1, b);
    }
  }

  lemma {:induction false} JoinZero(a: nat, n: nat)
    ensures Join(a, n, 0) == Low(a, n)
  {
    if n > 0 {
      JoinZero(a / 2, n - 1);
    }
  }

  lemma {:induction false} JoinAssoc(a: nat, m: nat, b: nat, n: nat, c: nat)
    ensures Join(Join(a, m, b), m + n, c) == Join(a, m, Join(b, n, c))
  {
    if m > 0 {
      JoinAssoc(a / 2, m - 1, b, n, c);
    }
  }

  lemma {:induction false} JoinBound(a: nat, m: nat, b: nat, n: nat)
    requires b < Pow2(n)
    ensures Join(a, m, b) < Pow2(m + n)
  {
    if m > 0 {
      JoinBound(a / 2, m - 1, b, n);
    }
  }

  /** Joining is the bitwise or with the shifted second part. */
  lemma {:induction false} JoinIsOr(a: nat, n: nat, b: nat)
    requires a < Pow2(n)
    ensures Join(a, n, b) == a + Shl(b, n)
  {
    if n > 0 {
      JoinIsOr(a / 2, n - 1, b);
      ShlDouble(b, n - 1);
    }
  }

  /** Buffered bits can be taken from the front of the buffer instead of from the stream. */
  lemma BufferSplit(c: nat, n: nat, count: nat, rest: nat)
    requires n <= count
    ensures Low(Join(c, count, rest), n) == Low(c, n)
    ensures Drop(Join(c, count, rest), n) == Join(Drop(c, n), count - n, rest)
    decreases n
  {
    if n > 0 {
      BufferSplit(c / 2, n - 1, count - 1, rest);
      FirstBit(c % 2, Join(c / 2, count - 1, rest));
      assert Join(c, count, rest) == c % 2 + 2 * Join(c / 2, count - 1, rest);
    }
  }

  lemma {:induction false} JoinMonotone(a: nat, n: nat, b: nat, c: nat)
    ensures Join(a, n, b) < Join(a, n, c) <==> b < c
  {
    if n > 0 {
      JoinMonotone(a / 2, n - 1, b, c);
    }
  }

  lemma {:induction false} JoinNext(a: nat, n: nat, b: nat)
    ensures Join(a, n, b + 1) == Join(a, n, b) + Pow2(n)
  {
    if n > 0 {
      JoinNext(a / 2, n - 1, b);
    }
  }

  lemma Remainder(v: int, m: int, q: int, r: int)
    requires 0 <= r < m && v == m * q + r
    ensures v % m == r
  {
    var e := v / m - q;
    assert v == m * (v / m) + v % m;
    assert m * e == r - v % m;
    NoSmallMultiple(m, e);
  }

  lemma NoSmallMultiple(m: int, e: int)
    requires m > 0
    ensures e >= 1 ==> m * e >= m
    ensures e <= -1 ==> m * e <= -m
  {
  }

  /** The mask is a remainder. */
  lemma LowIsRemainder(v: nat, n: nat, p: nat)
    requires p == Pow2(n)
    ensures Low(v, n) == v % p
  {
    Split(v, n);
    JoinLow(v, n, Drop(v, n));
    JoinIsOr(Low(v, n), n, Drop(v, n));
    ShlIsProduct(Drop(v, n), n);
    Remainder(v, p, Drop(v, n), Low(v, n));
  }

  /** Shifting right is a quotient. */
  lemma {:induction false} DropIsQuotient(v: nat, n: nat, p: nat)
    requires p == Pow2(n)
    ensures Drop(v, n) == v / p
  {
    if n > 0 {
      DropIsQuotient(v / 2, n - 1, p / 2);
      HalfQuotient(v, p / 2);
    }
  }

  lemma HalfQuotient(v: nat, q: nat)
    requires q > 0
    ensures v / 2 / q == v / (2 * q)
  {
    var w := v / 2 / q;
    var r := v - 2 * q * w;
    assert v / 2 == q * w + v / 2 % q;
    assert 2 * (q * w) == 2 * q * w;
    assert 0 <= r < 2 * q;
    Remainder(v, 2 * q, w, r);
    assert v == 2 * q * (v / (2 * q)) + v % (2 * q);
    NoSmallMultiple(2 * q, v / (2 * q) - w);
    assert 2 * q * (v / (2 * q) - w) == 2 * q * (v / (2 * q)) - 2 * q * w;
  }

  lemma {:induction false} ShlDouble(v: nat, n: nat)
    ensures Shl(2 * v, n) == 2 * Shl(v, n)
    decreases n
  {
    if n > 0 {
      ShlDouble(2 * v, n - 1);
    }
  }

  /** Shifting right lands between two bounds when the word lies between the shifted bounds. */
  lemma {:induction false} DropInterval(v: nat, n: nat, lo: nat, hi: nat)
    ensures lo <= Drop(v, n) < hi <==> Shl(lo, n) <= v < Shl(hi, n)
  {
    if n > 0 {
      DropInterval(v / 2, n - 1, lo, hi);
      ShlDouble(lo, n - 1);
      ShlDouble(hi, n - 1);
    }
  }

  /** Dropping bits makes a stream that is not yet exhausted smaller. */
  lemma DropStrict(v: nat, n: nat)
    requires v > 0 && n > 0
    ensures Drop(v, n) < v
  {
    assert v / 2 < v;
  }

  lemma {:induction false} BitOfLow(v: nat, n: nat, i: nat)
    requires i < n
    ensures Bit(Low(v, n), i) == Bit(v, i)
  {
    if i > 0 {
      BitOfLow(v / 2, n - 1, i - 1);
    }
  }

  // ----- Bit reversal -----

  /** The low n bits of v in the opposite order. */
  function Rev(v: nat, n: nat): (r: nat)
    ensures r < Pow2(n)
  {
    if n == 0 then 0 else 2 * Rev(v, n - 1) + Bit(v, n - 1)
  }

  /** The first s bits of a stream, reversed, are the top s bits of its reversed first n bits. */
  lemma {:induction false} RevPrefix(v: nat, s: nat, n: nat)
    requires s <= n
    ensures Drop(Rev(v, n), n - s) == Rev(v, s)
  {
    if s < n {
      RevPrefix(v, s, n - 1);
    }
  }

  /** Only the low n bits matter. */
  lemma {:induction false} RevLow(v: nat, s: nat, n: nat)
    requires s <= n
    ensures Rev(Low(v, n), s) == Rev(v, s)
  {
    if s > 0 {
      RevLow(v, s - 1, n);
      BitOfLow(v, n, s - 1);
    }
  }

  /** The first bit of v becomes the highest one. */
  lemma {:induction false} RevFront(v: nat, n: nat)
    ensures Rev(v, n + 1) == Join(Rev(v / 2, n), n, v % 2)
  {
    if n > 0 {
      RevFront(v, n - 1);
      assert Rev(v / 2, n) / 2 == Rev(v / 2, n - 1);
      assert Bit(v, n) == Bit(v / 2, n - 1);
    }
  }

  lemma RevBack(t: nat, n: nat, b: nat)
    requires t < Pow2(n) && b < 2
    ensures Rev(Join(t, n, b), n + 1) == 2 * Rev(t, n) + b
  {
    JoinSplit(t, n, b);
    LowSmall(t, n);
    RevLast(Join(t, n, b), t, n, b);
  }

  lemma RevLast(w: nat, t: nat, n: nat, b: nat)
    requires Low(w, n) == t && Drop(w, n) == b < 2
    ensures Rev(w, n + 1) == 2 * Rev(t, n) + b
  {
    RevLow(w, n, n);
  }

  lemma {:induction false} RevRev(v: nat, n: nat)
    ensures Rev(Rev(v, n), n) == Low(v, n)
  {
    if n > 0 {
      RevFront(v, n - 1);
      RevBack(Rev(v / 2, n - 1), n - 1, v % 2);
      RevRev(v / 2, n - 1);
    }
  }

  // ----- Bytes of a stream -----

  /** The stream whose bits are those of the bytes, each byte lowest bit first. */
  function Val(s: seq<byte>): nat
  {
    if s == [] then 0 else Join(s[0], 8, Val(s[1..]))
  }

  lemma {:induction false} ValAppend(a: seq<byte>, b: seq<byte>)
    ensures Val(a + b) == Join(Val(a), 8 * |a|, Val(b))
  {
    if a == [] {
      assert a + b == b;
    } else {
      ValAppend(a[1..], b);
      assert (a + b)[1..] == a[1..] + b;
      JoinAssoc(a[0], 8, Val(a[1..]), 8 * |a[1..]|, Val(b));
    }
  }

  lemma {:induction false} ValBound(s: seq<byte>)
    ensures Val(s) < Pow2(8 * |s|)
  {
    if s != [] {
      ValBound(s[1..]);
      JoinBound(s[0], 8, Val(s[1..]), 8 * |s[1..]|);
    }
  }

  // ----- Bit strings of known length -----

  /** A bit string: its len bits are the low binary digits of val, lowest first. */
  datatype Code = Code(val: nat, len: nat) {
    predicate Fits() { val < Pow2(len) }
  }

  function Cat(a: Code, b: Code): Code {
    Code(Join(a.val, a.len, b.val), a.len + b.len)
  }

  /** The stream that starts with the code and goes on with rest. */
  function Before(c: Code, rest: nat): nat {
    Join(c.val, c.len, rest)
  }

  lemma CatFits(a: Code, b: Code)
    requires b.Fits()
    ensures Cat(a, b).Fits()
  {
    JoinBound(a.val, a.len, b.val, b.len);
  }

  lemma CatAssoc(a: Code, b: Code, c: Code)
    ensures Cat(Cat(a, b), c) == Cat(a, Cat(b, c))
  {
    JoinAssoc(a.val, a.len, b.val, b.len, c.val);
  }

  lemma BeforeCat(a: Code, b: Code, rest: nat)
    ensures Before(Cat(a, b), rest) == Before(a, Before(b, rest))
  {
    JoinAssoc(a.val, a.len, b.val, b.len, rest);
  }
}
