/** The Adler-32 checksum the compressor appends: the loop that takes remainders only once a block
against the byte-by-byte definition of section 2.2 of RFC 1950. */
module Adler {
  import opened Bits

  const BASE := 65521
  const BLOCK := 5552

  /** Both running sums, modulo 65521, after every byte. */
  function Sums(data: seq<byte>): (s: (nat, nat))
    ensures s.0 < BASE && s.1 < BASE
  {
    if data == [] then (1, 0) else
      var before := Sums(data[..|data| - 1]);
      var a := (before.0 + data[|data| - 1]) % BASE;
      (a, (before.1 + a) % BASE)
  }

  // ----- The sums in closed form -----

  function ByteSum(data: seq<byte>): nat {
    if data == [] then 0 else data[0] + ByteSum(data[1..])
  }

  /** Every byte as often as there are bytes from it on. */
  function WeightedSum(data: seq<byte>): nat {
    if data == [] then 0 else |data| * data[0] + WeightedSum(data[1..])
  }

  lemma {:induction false} SumsOfMore(data: seq<byte>, b: byte)
    ensures ByteSum(data + [b]) == ByteSum(data) + b
    ensures WeightedSum(data + [b]) == WeightedSum(data) + ByteSum(data) + b
  {
    if data == [] {
      assert data + [b] == [b];
    } else {
      assert (data + [b])[1..] == data[1..] + [b];
      SumsOfMore(data[1..], b);
      assert (|data| + 1) * data[0] == |data| * data[0] + data[0];
    }
  }

  lemma NextSums(a: nat, b: nat, x: byte, s: (nat, nat))
    requires s == (a % BASE, b % BASE)
    ensures (s.0 + x) % BASE == (a + x) % BASE
    ensures (s.1 + (s.0 + x) % BASE) % BASE == (b + a + x) % BASE
  {
    ModAdd(a, x, BASE);
    ModAdd(b, (a + x) % BASE, BASE);
    ModAdd(a + x, b, BASE);
  }

  /** The checksum: in the lower half one more than the sum of the bytes, and in the upper half the sum of all such
  sums, both modulo 65521. */
  function Adler32(data: seq<byte>): nat {
    (|data| + WeightedSum(data)) % 65521 * 0x1_0000 + (1 + ByteSum(data)) % 65521
  }

  lemma {:induction false} SumsAre(data: seq<byte>)
    ensures Sums(data) == ((1 + ByteSum(data)) % BASE, (|data| + WeightedSum(data)) % BASE)
  {
    if data != [] {
      var front, b := data[..|data| - 1], data[|data| - 1];
      assert data == front + [b];
      SumsAre(front);
      SumsOfMore(front, b);
      SumsStep(data, front, b, 1 + ByteSum(front), |front| + WeightedSum(front));
    }
  }

  lemma SumsStep(data: seq<byte>, front: seq<byte>, b: byte, plain: nat, weighted: nat)
    requires data != [] && front == data[..|data| - 1] && b == data[|data| - 1]
    requires Sums(front) == (plain % BASE, weighted % BASE)
    ensures Sums(data) == ((plain + b) % BASE, (weighted + plain + b) % BASE)
  {
    NextSums(plain, weighted, b, Sums(front));
  }

  lemma Adler32Is(data: seq<byte>)
    ensures Sums(data).1 * 0x1_0000 + Sums(data).0 == Adler32(data)
  {
    SumsAre(data);
  }

  /** The sums as the last four bytes of the stream. */
  function Trailer(s: (nat, nat)): seq<byte>
  {
    [s.1 / 256 % 256, s.1 % 256, s.0 / 256 % 256, s.0 % 256]
  }

  /** Blocks of 5552 bytes, the first one shorter and possibly empty. */
  method Checksum(data: seq<byte>) returns (s1: nat, s2: nat)
    ensures (s1, s2) == Sums(data)
  {
    s1, s2 := 1, 0;
    var blocklen := |data| % BLOCK;
    var j := 0;
    ghost var whole := |data| / BLOCK;
    assert data[..0] == [];
    while j < |data|
      invariant 0 <= j <= |data| && 0 <= blocklen <= BLOCK
      invariant j < |data| ==> |data| == j + blocklen + BLOCK * whole && whole >= 0
      invariant (s1, s2) == Sums(data[..j])
      decreases |data| - j, BLOCK - blocklen
    {
      s1, s2 := SumBlock(data, j, blocklen, s1, s2);
      s1, s2 := s1 % BASE, s2 % BASE;
      j := j + blocklen;
      blocklen := BLOCK;
      whole := whole - 1;
    }
    assert data[..j] == data;
  }

  /** One block without remainders: the sums stay within 32 bits. */
  method SumBlock(data: seq<byte>, j: nat, blocklen: nat, a: nat, b: nat) returns (s1: nat, s2: nat)
    requires blocklen <= BLOCK && j + blocklen <= |data|
    requires (a, b) == Sums(data[..j])
    ensures s1 < 0x1_0000_0000 && s2 < 0x1_0000_0000
    ensures (s1 % BASE, s2 % BASE) == Sums(data[..j + blocklen])
  {
    s1, s2 := a, b;
    var i := 0;
    ghost var at: nat := j;
    while i < blocklen
      invariant 0 <= i <= blocklen && at == j + i && InBounds(s1, s2, i) && Agree(data, at, s1, s2)
    {
      StepModulo(data, at, s1, s2);
      MoreBounds(s1, s2, i, data[j + i]);
      s1 := s1 + data[j + i];
      s2 := s2 + s1;
      i, at := i + 1, at + 1;
    }
    BoundFits(i);
    SameSums(data, at, j + blocklen, s1, s2);
  }

  lemma SameSums(data: seq<byte>, n: nat, m: nat, s1: nat, s2: nat)
    requires n == m <= |data| && Agree(data, n, s1, s2)
    ensures Agree(data, m, s1, s2)
  {
  }

  /** The most the sums can be after i bytes of a block. */
  predicate InBounds(s1: nat, s2: nat, i: nat) {
    s1 < BASE + 255 * i && s2 <= Bound(i)
  }

  lemma MoreBounds(s1: nat, s2: nat, i: nat, b: byte)
    requires InBounds(s1, s2, i)
    ensures InBounds(s1 + b, s2 + (s1 + b), i + 1)
  {
  }

  predicate Agree(data: seq<byte>, n: nat, s1: nat, s2: nat)
    requires n <= |data|
  {
    (s1 % BASE, s2 % BASE) == Sums(data[..n])
  }

  /** The most the second sum can be after i bytes of a block. */
  function Bound(i: nat): nat {
    if i == 0 then BASE - 1 else Bound(i - 1) + (BASE - 1) + 255 * i
  }

  /** Neither sum outgrows 32 bits within a block. */
  lemma BoundFits(i: nat)
    requires i <= BLOCK
    ensures BASE + 255 * i < 0x1_0000_0000 && Bound(i) < 0x1_0000_0000
  {
    BoundMonotone(i, BLOCK);
    BoundClosed(BLOCK);
  }

  lemma {:induction false} BoundClosed(i: nat)
    ensures 2 * Bound(i) == 2 * (BASE - 1) * (i + 1) + 255 * (i * (i + 1))
  {
    if i > 0 {
      BoundClosed(i - 1);
      assert i * (i + 1) == (i - 1) * i + 2 * i;
    }
  }

  lemma {:induction false} BoundMonotone(i: nat, j: nat)
    requires i <= j
    ensures Bound(i) <= Bound(j)
  {
    if i < j {
      BoundMonotone(i, j - 1);
    }
  }

  lemma StepModulo(data: seq<byte>, n: nat, s1: nat, s2: nat)
    requires n < |data| && Agree(data, n, s1, s2)
    ensures Agree(data, n + 1, s1 + data[n], s2 + (s1 + data[n]))
  {
    assert data[..n + 1][..n] == data[..n];
    ModAdd(s1, data[n], BASE);
    ModAdd(s2, s1 + data[n], BASE);
    ModAdd(s1 + data[n], s2 % BASE, BASE);
  }

  lemma ModAdd(a: nat, b: nat, m: nat)
    requires m > 0
    ensures (a % m + b) % m == (a + b) % m
  {
    var c, q := a % m + b, a / m;
    assert a + b == m * (c / m) + m * q + c % m;
    Remainder(a + b, m, c / m + q, c % m);
  }
}
