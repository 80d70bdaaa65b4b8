/** The bounded buffer of the connection queue: a fixed number of slots used in a circle. */
module Ring {
  import opened Bits

  datatype Ring = Ring(slots: seq<int>, length: nat, readIdx: nat, writeIdx: nat) {
    function Capacity(): nat {
      |slots|
    }

    predicate Valid() {
      0 < |slots| && length <= |slots| && readIdx < |slots| && writeIdx == Wrap(readIdx + length, |slots|)
    }

    /** What is stored, oldest first. */
    function Contents(): (s: seq<int>)
      requires Valid()
      ensures |s| == length
    {
      Stored(slots, readIdx, length)
    }

    predicate Full() {
      length == |slots|
    }

    predicate Empty() {
      length == 0
    }
  }

  /** Past the last slot the circle starts again. */
  function Wrap(i: nat, capacity: nat): nat {
    if i < capacity then i else i - capacity
  }

  function Stored(slots: seq<int>, read: nat, n: nat): (s: seq<int>)
    requires read < |slots|
    ensures |s| == n
    decreases n
  {
    if n == 0 then [] else [slots[read]] + Stored(slots, Wrap(read + 1, |slots|), n - 1)
  }

  function New(capacity: nat): Ring {
    Ring(seq(capacity, _ => 0), 0, 0, 0)
  }

  function Put(r: Ring, fd: int): Ring
    requires r.Valid() && !r.Full()
  {
    Ring(r.slots[r.writeIdx := fd], r.length + 1, r.readIdx, Wrap(r.writeIdx + 1, |r.slots|))
  }

  function Oldest(r: Ring): int
    requires r.Valid()
  {
    r.slots[r.readIdx]
  }

  function Take(r: Ring): Ring
    requires r.Valid() && !r.Empty()
  {
    Ring(r.slots, r.length - 1, Wrap(r.readIdx + 1, |r.slots|), r.writeIdx)
  }

  lemma NewIsEmpty(capacity: nat)
    requires capacity > 0
    ensures New(capacity).Valid() && New(capacity).Contents() == []
  {
  }

  lemma {:induction false} StoredSnoc(slots: seq<int>, read: nat, n: nat, fd: int)
    requires read < |slots| && n < |slots|
    ensures Stored(slots[Wrap(read + n, |slots|) := fd], read, n + 1) == Stored(slots, read, n) + [fd]
    decreases n
  {
    var after := slots[Wrap(read + n, |slots|) := fd];
    var next := Wrap(read + 1, |slots|);
    if n == 0 {
      assert Stored(after, next, 0) == [];
    } else {
      assert Wrap(next + (n - 1), |slots|) == Wrap(read + n, |slots|);
      StoredSnoc(slots, next, n - 1, fd);
      assert after[read] == slots[read];
    }
  }

  /** Putting adds at the end and keeps the write index in step. */
  lemma PutAppends(r: Ring, fd: int)
    requires r.Valid() && !r.Full()
    ensures Put(r, fd).Valid() && Put(r, fd).Contents() == r.Contents() + [fd]
  {
    StoredSnoc(r.slots, r.readIdx, r.length, fd);
  }

  /** Taking removes the oldest. */
  lemma TakeRemoves(r: Ring)
    requires r.Valid() && !r.Empty()
    ensures Take(r).Valid() && r.Contents() == [Oldest(r)] + Take(r).Contents()
  {
  }

  /** The write index is the read index plus the length, modulo the capacity. */
  lemma IndicesAgree(r: Ring)
    requires r.Valid()
    ensures r.writeIdx == (r.readIdx + r.length) % |r.slots|
  {
    var v, m := r.readIdx + r.length, |r.slots|;
    Remainder(v, m, if v < m then 0 else 1, Wrap(v, m));
  }
}
