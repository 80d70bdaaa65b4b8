/** The growable vector of strings that holds a command line's tokens. Strings are only copied and compared,
so they are left as any type with equality. */
module StringVector {
  const INITIAL_SIZE := 4

  function Occurrences<T(==)>(s: seq<T>, t: T): nat {
    if s == [] then 0 else (if s[0] == t then 1 else 0) + Occurrences(s[1..], t)
  }

  lemma {:induction false} OccurrencesAppend<T>(a: seq<T>, b: seq<T>, t: T)
    ensures Occurrences(a + b, t) == Occurrences(a, t) + Occurrences(b, t)
  {
    if a == [] {
      assert a + b == b;
    } else {
      assert (a + b)[1..] == a[1..] + b;
      OccurrencesAppend(a[1..], b, t);
    }
  }

  lemma {:induction false} NoOccurrences<T>(s: seq<T>, t: T)
    ensures Occurrences(s, t) == 0 <==> t !in s
  {
    if s != [] {
      NoOccurrences(s[1..], t);
    }
  }

  class StrVec<T(0, ==)> {
    var data: array<T>
    var length: nat
    ghost var Repr: set<object>

    ghost predicate Valid()
      reads this, Repr
    {
      this in Repr && data in Repr && length <= data.Length
    }

    ghost function Contents(): seq<T>
      reads this, Repr
      requires Valid()
    {
      data[..length]
    }

    constructor ()
      ensures Valid() && fresh(Repr) && Contents() == []
    {
      data := new T[INITIAL_SIZE];
      length := 0;
      new;
      Repr := {this, data};
    }

    /** Appends, in twice the space when it is full; cleared vectors get their first space again. */
    method Add(s: T)
      requires Valid()
      modifies Repr
      ensures Valid() && fresh(Repr - old(Repr)) && Contents() == old(Contents()) + [s]
    {
      if length == data.Length {
        var newData := new T[if data.Length == 0 then INITIAL_SIZE else 2 * data.Length];
        forall i | 0 <= i < length { newData[i] := data[i]; }
        data := newData;
        Repr := Repr + {data};
      }
      data[length] := s;
      length := length + 1;
    }

    /** The last place of a string, or -1. */
    method FindLast(s: T) returns (k: int)
      requires Valid()
      ensures -1 <= k < length
      ensures k >= 0 ==> Contents()[k] == s
      ensures forall i :: k < i < length ==> Contents()[i] != s
    {
      k := length - 1;
      while k >= 0
        invariant -1 <= k < length
        invariant forall i :: k < i < length ==> Contents()[i] != s
      {
        if data[k] == s { return; }
        k := k - 1;
      }
    }

    method NumOccurrences(s: T) returns (n: nat)
      requires Valid()
      ensures n == Occurrences(Contents(), s)
    {
      n := 0;
      for i := 0 to length
        invariant n == Occurrences(data[..i], s)
      {
        OccurrencesAppend(data[..i], [data[i]], s);
        assert data[..i + 1] == data[..i] + [data[i]];
        assert Occurrences([data[i]], s) == if data[i] == s then 1 else 0;
        if data[i] == s {
          n := n + 1;
        }
      }
    }

    /** Keeps the first n strings. */
    method Take(n: nat)
      requires Valid()
      modifies this`length
      ensures Valid() && Contents() == if n <= |old(Contents())| then old(Contents())[..n] else old(Contents())
    {
      length := if n > length then length else n;
    }

    /** A copy of a range; bounds outside the vector are cut to it. */
    method Slice(start: int, end: int) returns (dest: StrVec<T>)
      requires Valid()
      ensures dest.Valid() && fresh(dest.Repr)
      ensures var lo, hi := if start < 0 then 0 else start, if end > length then length else end;
              IsRange(dest.Contents(), Contents(), lo, hi)
    {
      var lo, hi := if start < 0 then 0 else start, if end > length then length else end;
      dest := new StrVec<T>();
      var i := lo;
      while i < hi
        invariant dest.Valid() && fresh(dest.Repr)
        invariant lo <= i && (lo <= hi ==> i <= hi)
        invariant IsRange(dest.Contents(), Contents(), lo, if lo <= hi then i else hi)
      {
        dest.Add(data[i]);
        i := i + 1;
      }
    }
  }

  /** The strings from lo up to hi, none if lo is past hi. */
  ghost predicate IsRange<T>(part: seq<T>, s: seq<T>, lo: nat, hi: int)
    requires hi <= |s|
  {
    |part| == (if lo <= hi then hi - lo else 0) && forall i :: 0 <= i < |part| ==> part[i] == s[lo + i]
  }
}
