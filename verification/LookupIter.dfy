/** Iteration over the lookup table: every pair of the abstract map, once each. */
module LookupIter {
  import opened Bytes
  import opened Arena
  import opened Probe
  import opened LookupEntries
  import opened LookupTable

  /** The records denoted by the nonempty entries, in table order. */
  ghost function Pairs(entries: seq<Entry>, records: map<Position, Record>, size: nat): seq<Record>
    requires size > 0
  {
    if entries == [] then []
    else
      var r := RecordOf(entries[0], records, size);
      (if r.Some? then [r.value] else []) + Pairs(entries[1..], records, size)
  }

  ghost predicate DistinctKeys(pairs: seq<Record>)
  {
    forall i, j | 0 <= i < j < |pairs| :: pairs[i].key != pairs[j].key
  }

  lemma {:induction false} PairsMember(entries: seq<Entry>, records: map<Position, Record>, size: nat, r: Record)
    requires size > 0
    ensures r in Pairs(entries, records, size) <==>
            exists i | 0 <= i < |entries| :: RecordOf(entries[i], records, size) == Some(r)
  {
    if entries == [] {
    } else {
      PairsMember(entries[1..], records, size, r);
      if i :| 0 <= i < |entries| && RecordOf(entries[i], records, size) == Some(r) {
        if i > 0 { assert entries[1..][i - 1] == entries[i]; }
      }
    }
  }

  lemma {:induction false} PairsDistinct(entries: seq<Entry>, records: map<Position, Record>, size: nat)
    requires size > 0 && Distinct(SlotsOf(entries, records, size))
    ensures DistinctKeys(Pairs(entries, records, size))
  {
    if entries == [] {
    } else {
      var slots, rest := SlotsOf(entries, records, size), entries[1..];
      assert SlotsOf(rest, records, size) == slots[1..];
      PairsDistinct(rest, records, size);
      forall r | r in Pairs(rest, records, size) ensures slots[0] != Some(r.key) {
        PairsMember(rest, records, size, r);
        var i :| 0 <= i < |rest| && RecordOf(rest[i], records, size) == Some(r);
        assert slots[i + 1] == Some(r.key);
      }
    }
  }

  lemma {:induction false} KeyCount(pairs: seq<Record>)
    requires DistinctKeys(pairs)
    ensures |(set r | r in pairs :: r.key)| == |pairs|
  {
    if pairs == [] {
    } else {
      var rest := pairs[1..];
      KeyCount(rest);
      var before := set r | r in rest :: r.key;
      assert (set r | r in pairs :: r.key) == before + {pairs[0].key} by {
        assert forall r | r in pairs :: r == pairs[0] || r in rest;
        assert pairs[0] in pairs;
      }
      assert pairs[0].key !in before;
    }
  }

  /** The pairs are exactly the abstract map: nothing missing, nothing twice. */
  ghost predicate Enumerates(pairs: seq<Record>, contents: map<Key, seq<byte>>)
  {
    && |pairs| == |contents|
    && DistinctKeys(pairs)
    && (forall r :: r in pairs <==> r.key in contents && contents[r.key] == r.value)
  }

  lemma PairsEnumerate(table: seq<Entry>, records: map<Position, Record>, size: nat,
                       contents: map<Key, seq<byte>>)
    requires size > 0 && Distinct(SlotsOf(table, records, size))
    requires ValuesOk(table, records, size, contents)
    requires KeysOf(SlotsOf(table, records, size)) == contents.Keys
    ensures Enumerates(Pairs(table, records, size), contents)
  {
    var pairs, slots := Pairs(table, records, size), SlotsOf(table, records, size);
    PairsDistinct(table, records, size);
    forall r: Record ensures r in pairs <==> r.key in contents && contents[r.key] == r.value {
      PairsMember(table, records, size, r);
      if r.key in contents && contents[r.key] == r.value {
        assert r.key in KeysOf(slots);
        var i: nat :| i < |slots| && slots[i].Some? && slots[i].value == r.key;
        assert RecordOf(table[i], records, size) == Some(r);
      }
    }
    KeyCount(pairs);
    assert (set r | r in pairs :: r.key) == contents.Keys by {
      forall k | k in contents ensures k in (set r | r in pairs :: r.key) {
        assert Record(k, contents[k]) in pairs;
      }
    }
  }

  class LookupHtblIter {
    const htbl: LookupHtbl
    var tableIndex: nat

    constructor (htbl: LookupHtbl)
      ensures this.htbl == htbl && tableIndex == 0
    {
      this.htbl := htbl;
      tableIndex := 0;
    }

    ghost predicate Valid()
      reads this, htbl, htbl.dataChunks
    {
      htbl.Valid() && tableIndex <= |htbl.table|
    }

    /** What the iterator has still to yield. */
    ghost function Remaining(): seq<Record>
      requires Valid()
      reads this, htbl, htbl.dataChunks
    {
      if htbl.table == [] then [] else Pairs(htbl.table[tableIndex..], htbl.records, htbl.chunkSize)
    }

    /** A new iterator has the whole map to yield. */
    lemma YieldsAll()
      requires Valid() && tableIndex == 0
      ensures Enumerates(Remaining(), htbl.contents)
    {
      hide LookupHtbl.StorageOk;
      if htbl.table != [] {
        assert htbl.table[0..] == htbl.table;
        PairsEnumerate(htbl.table, htbl.records, htbl.chunkSize, htbl.contents);
      }
    }

    method Next() returns (item: Option<Record>)
      requires Valid()
      modifies this
      ensures Valid()
      ensures item.None? ==> old(Remaining()) == []
      ensures item.Some? ==> old(Remaining()) == [item.value] + Remaining()
    {
      hide LookupHtbl.Loaded, RecordOf;
      ghost var was := Remaining();
      while true
        invariant Valid() && Remaining() == was
        decreases |htbl.table| - tableIndex
      {
        if tableIndex >= |htbl.table| {
          return None;
        }
        ghost var rest := htbl.table[tableIndex..];
        assert rest[0] == htbl.table[tableIndex] && rest[1..] == htbl.table[tableIndex + 1..];
        item := htbl.PairAt(tableIndex);
        tableIndex := tableIndex + 1;
        if item.Some? {
          return;
        }
      }
    }
  }

  /** A `for` loop over the table visits each pair of the map exactly once and stops. */
  method Iterate(htbl: LookupHtbl) returns (pairs: seq<Record>)
    requires htbl.Valid()
    ensures Enumerates(pairs, htbl.contents)
  {
    hide LookupHtbl.Valid, LookupHtblIter.Remaining, Enumerates;
    var iter := new LookupHtblIter(htbl);
    ghost var all := iter.Remaining();
    iter.YieldsAll();
    pairs := [];
    var item := iter.Next();
    while item.Some?
      invariant iter.Valid() && iter.htbl == htbl
      invariant all == pairs + (if item.Some? then [item.value] + iter.Remaining() else [])
      decreases |all| - |pairs|
    {
      pairs := pairs + [item.value];
      item := iter.Next();
    }
    assert pairs == all;
  }
}
