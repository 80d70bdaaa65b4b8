/** The input shared by the image readers: a cursor over bytes that gives zeros past the end. */
module ByteReader {
  import opened Bits

  function At(s: seq<byte>, i: nat): byte {
    if i < |s| then s[i] else 0
  }

  /** The position k bytes on, held at the end of the input. */
  function Skip(s: seq<byte>, pos: nat, k: nat): (next: nat) {
    if pos + k <= |s| then pos + k else |s|
  }

  function Be(a: byte, b: byte, c: byte, d: byte): nat {
    a * 0x100_0000 + b * 0x1_0000 + c * 0x100 + d
  }

  /** The number in the k bytes from i on, the most significant first. */
  function Number(s: seq<byte>, i: nat, k: nat): nat {
    if k == 0 then 0 else Number(s, i, k - 1) * 256 + At(s, i + k - 1)
  }

  function Be32(s: seq<byte>, i: nat): nat {
    Number(s, i, 4)
  }

  lemma Be32Is(s: seq<byte>, i: nat)
    ensures Be32(s, i) == Be(At(s, i), At(s, i + 1), At(s, i + 2), At(s, i + 3)) < 0x1_0000_0000
  {
    assert Number(s, i, 0) == 0;
    assert Number(s, i, 1) == At(s, i);
    assert Number(s, i, 2) == Number(s, i, 1) * 256 + At(s, i + 1);
    assert Number(s, i, 3) == Number(s, i, 2) * 256 + At(s, i + 2);
  }

  lemma SkipAgain(s: seq<byte>, pos: nat, j: nat, k: nat)
    ensures At(s, Skip(s, pos, j) + k) == At(s, pos + j + k) && Skip(s, Skip(s, pos, j), k) == Skip(s, pos, j + k)
  {
  }

  lemma {:induction false} NumberAfter(s: seq<byte>, pos: nat, j: nat, k: nat)
    ensures Number(s, Skip(s, pos, j), k) == Number(s, pos + j, k)
  {
    if k > 0 {
      NumberAfter(s, pos, j, k - 1);
      SkipAgain(s, pos, j, k - 1);
    }
  }

  lemma BeAfter(s: seq<byte>, pos: nat, j: nat)
    ensures Be32(s, Skip(s, pos, j)) == Be32(s, pos + j)
  {
    NumberAfter(s, pos, j, 4);
  }

  /** The given bytes stand at a position of the input. */
  ghost predicate StandsAt(s: seq<byte>, pos: nat, bytes: seq<byte>) {
    pos + |bytes| <= |s| && forall i :: 0 <= i < |bytes| ==> s[pos + i] == bytes[i]
  }

  lemma StandsAppend(s: seq<byte>, pos: nat, a: seq<byte>, b: seq<byte>)
    requires StandsAt(s, pos, a + b)
    ensures StandsAt(s, pos, a) && StandsAt(s, pos + |a|, b)
  {
    forall i | 0 <= i < |a| ensures s[pos + i] == a[i] {
      assert s[pos + i] == (a + b)[i];
    }
    forall i | 0 <= i < |b| ensures s[pos + |a| + i] == b[i] {
      assert s[pos + (|a| + i)] == (a + b)[|a| + i];
    }
  }

  /** The input with its read position; reading past the end gives zeros. */
  class Context {
    const buffer: seq<byte>
    var pos: nat

    constructor (file: seq<byte>)
      ensures buffer == file && pos == 0
    {
      buffer, pos := file, 0;
    }

    method Get8() returns (b: byte)
      modifies this
      ensures b == At(buffer, old(pos)) && pos == Skip(buffer, old(pos), 1)
    {
      b := 0;
      if pos < |buffer| {
        b := buffer[pos];
        pos := pos + 1;
      } else {
        pos := |buffer|;
      }
    }

    method Get16be() returns (v: nat)
      modifies this
      ensures v == At(buffer, old(pos)) * 0x100 + At(buffer, old(pos) + 1) as int && pos == Skip(buffer, old(pos), 2)
    {
      var hi := Get8();
      var lo := Get8();
      v := hi as int * 0x100 + lo;
    }

    method Get32be() returns (v: nat)
      modifies this
      ensures v == Be32(buffer, old(pos)) < 0x1_0000_0000 && pos == Skip(buffer, old(pos), 4)
    {
      Be32Is(buffer, pos);
      SkipAgain(buffer, pos, 2, 0);
      SkipAgain(buffer, pos, 2, 1);
      SkipAgain(buffer, pos, 2, 2);
      var hi := Get16be();
      var lo := Get16be();
      v := hi * 0x1_0000 + lo;
    }

    method SkipBytes(n: int)
      modifies this
      ensures pos == if n < 0 then |buffer| else Skip(buffer, old(pos), n)
    {
      pos := if n < 0 || pos + n > |buffer| then |buffer| else pos + n;
    }

    method GetN(n: nat) returns (ok: bool, data: seq<byte>)
      modifies this
      ensures ok <==> old(pos) + n <= |buffer|
      ensures ok ==> data == buffer[old(pos)..old(pos) + n] && pos == old(pos) + n
    {
      ok, data := pos + n <= |buffer|, [];
      if ok {
        data := buffer[pos..pos + n];
        pos := pos + n;
      }
    }
  }
}
