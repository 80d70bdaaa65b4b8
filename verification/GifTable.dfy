/** The decoder's code table: for every string the code it extends, its first byte and its last. */
module GifTable {
  import opened Bits
  import opened GifLzw

  /** The entry of the i-th added string: an earlier code extended by one byte. */
  predicate EntryOk(cs: nat, entries: seq<seq<byte>>, i: nat, prefix: seq<int>, first: seq<byte>, suffix: seq<byte>)
    requires i < |entries| && Avail(cs, entries) <= |prefix| == |first| == |suffix|
  {
    var c := Clear(cs) + 2 + i;
    && 0 <= prefix[c] < c && IsLive(cs, entries[..i], prefix[c])
    && entries[i] == WordOf(cs, entries[..i], prefix[c]) + [suffix[c]]
    && first[c] == entries[i][0]
  }

  predicate RootOk(c: nat, prefix: seq<int>, first: seq<byte>, suffix: seq<byte>)
    requires c < |prefix| == |first| == |suffix|
  {
    prefix[c] == -1 && first[c] == c % 256 && suffix[c] == c % 256
  }

  predicate TableOk(cs: nat, entries: seq<seq<byte>>, prefix: seq<int>, first: seq<byte>, suffix: seq<byte>) {
    && |prefix| == |first| == |suffix| == MAX_CODES && Avail(cs, entries) <= MAX_CODES
    && (forall c :: 0 <= c < Clear(cs) ==> RootOk(c, prefix, first, suffix))
    && (forall i :: 0 <= i < |entries| ==> EntryOk(cs, entries, i, prefix, first, suffix))
  }

  lemma WordOfPrefix(cs: nat, entries: seq<seq<byte>>, i: nat, code: nat)
    requires i <= |entries| && IsLive(cs, entries[..i], code)
    ensures IsLive(cs, entries, code) && WordOf(cs, entries[..i], code) == WordOf(cs, entries, code)
  {
  }

  /** Looking a live code up: the string of its prefix, then its last byte. */
  lemma LookUp(cs: nat, entries: seq<seq<byte>>, prefix: seq<int>, first: seq<byte>, suffix: seq<byte>, code: nat)
    requires TableOk(cs, entries, prefix, first, suffix) && IsLive(cs, entries, code)
    ensures code < MAX_CODES && WordOf(cs, entries, code) != [] && first[code] == WordOf(cs, entries, code)[0]
    ensures prefix[code] < 0 ==> WordOf(cs, entries, code) == [suffix[code]]
    ensures prefix[code] >= 0 ==>
              prefix[code] < code && IsLive(cs, entries, prefix[code])
              && WordOf(cs, entries, code) == WordOf(cs, entries, prefix[code]) + [suffix[code]]
  {
    if code < Clear(cs) {
      assert RootOk(code, prefix, first, suffix);
    } else {
      var i := code - Clear(cs) - 2;
      assert EntryOk(cs, entries, i, prefix, first, suffix);
      WordOfPrefix(cs, entries, i, prefix[code]);
    }
  }

  /** Clearing forgets the added strings and keeps the single bytes. */
  lemma ClearTable(cs: nat, entries: seq<seq<byte>>, prefix: seq<int>, first: seq<byte>, suffix: seq<byte>)
    requires TableOk(cs, entries, prefix, first, suffix)
    ensures TableOk(cs, [], prefix, first, suffix)
  {
  }

  /** Adding the string last + [b] as an extension of the code for last. */
  lemma AddEntry(cs: nat, entries: seq<seq<byte>>, prefix: seq<int>, first: seq<byte>, suffix: seq<byte>, code: nat,
                 b: byte, prefix': seq<int>, first': seq<byte>, suffix': seq<byte>)
    requires TableOk(cs, entries, prefix, first, suffix) && IsLive(cs, entries, code) && Avail(cs, entries) < MAX_CODES
    requires WordOf(cs, entries, code) != []
    requires prefix' == prefix[Avail(cs, entries) := code] && suffix' == suffix[Avail(cs, entries) := b]
    requires first' == first[Avail(cs, entries) := WordOf(cs, entries, code)[0]]
    ensures TableOk(cs, entries + [WordOf(cs, entries, code) + [b]], prefix', first', suffix')
  {
    var all := entries + [WordOf(cs, entries, code) + [b]];
    var n := |entries|;
    forall c | 0 <= c < Clear(cs) ensures RootOk(c, prefix', first', suffix') {
      assert RootOk(c, prefix, first, suffix);
    }
    assert all[..n] == entries;
    forall i | 0 <= i < |all| ensures EntryOk(cs, all, i, prefix', first', suffix') {
      if i < n {
        assert EntryOk(cs, entries, i, prefix, first, suffix);
        assert all[..i] == entries[..i];
      }
    }
  }
}
