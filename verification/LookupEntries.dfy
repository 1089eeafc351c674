/** Packed table entries, and the view of a table of entries as slots holding keys. */
module LookupEntries {
  import opened Bytes
  import opened Arena
  import opened Probe

  type Index40 = s: seq<byte> | |s| == INDEX_SIZE witness [0, 0, 0, 0, 0]

  /** One hash byte and a five-byte data index; index zero marks an empty entry. */
  datatype Entry = Entry(hashByte: byte, dataIndex: Index40)

  const EMPTY_ENTRY := Entry(0, LeBytes(0, INDEX_SIZE))

  /** A table of empty entries. */
  function Blank(n: nat): (table: seq<Entry>)
    ensures |table| == n
  {
    seq(n, _ => EMPTY_ENTRY)
  }

  lemma IndexRange()
    ensures Pow256(INDEX_SIZE) == INDEX_LIMIT
  {
    assert Pow256(5) == 256 * Pow256(4) && Pow256(4) == 256 * Pow256(3);
    assert Pow256(3) == 256 * Pow256(2) && Pow256(2) == 256 * Pow256(1) && Pow256(1) == 256;
  }

  function ReadIndex(e: Entry): (i: nat)
    ensures i < INDEX_LIMIT
  {
    IndexRange();
    FromLe(e.dataIndex)
  }

  function WriteIndex(e: Entry, value: nat): Entry
  {
    e.(dataIndex := LeBytes(value, INDEX_SIZE))
  }

  /** A data index survives the five-byte store exactly when it is below 2^40. */
  lemma IndexSurvives(e: Entry, value: nat)
    ensures ReadIndex(WriteIndex(e, value)) == value <==> value < INDEX_LIMIT
  {
    IndexRange();
    if value < INDEX_LIMIT { LeRoundTrip(value, 5); }
  }

  /** A nonempty entry denotes a record and carries the hash byte of its key. */
  predicate EntryOk(e: Entry, records: map<Position, Record>, size: nat, hash: Hash, secret: uint64)
    requires size > 0
  {
    var i := ReadIndex(e);
    if i == 0 then e.hashByte == 0
    else
      && Locate(i, size) in records
      && e.hashByte == HashByte(hash(records[Locate(i, size)].key, secret))
  }

  ghost predicate EntriesOk(table: seq<Entry>, records: map<Position, Record>, size: nat, hash: Hash, secret: uint64)
    requires size > 0
  {
    forall i | 0 <= i < |table| :: EntryOk(table[i], records, size, hash, secret)
  }

  /** The record an entry denotes, if any. */
  function RecordOf(e: Entry, records: map<Position, Record>, size: nat): Option<Record>
    requires size > 0
  {
    var i := ReadIndex(e);
    if i != 0 && Locate(i, size) in records then Some(records[Locate(i, size)]) else None
  }

  function SlotOf(e: Entry, records: map<Position, Record>, size: nat): Option<Key>
    requires size > 0
  {
    var r := RecordOf(e, records, size);
    if r.Some? then Some(r.value.key) else None
  }

  ghost function SlotsOf(table: seq<Entry>, records: map<Position, Record>, size: nat): (slots: Slots)
    requires size > 0
    ensures |slots| == |table|
    ensures forall i | 0 <= i < |table| :: slots[i] == SlotOf(table[i], records, size)
  {
    seq(|table|, i requires 0 <= i < |table| => SlotOf(table[i], records, size))
  }

  ghost function KeysOf(slots: Slots): set<Key>
  {
    set i: nat | i < |slots| && slots[i].Some? :: slots[i].value
  }

  /** Every occupied entry's record gives the value `contents` has for its key. */
  ghost predicate ValuesOk(table: seq<Entry>, records: map<Position, Record>, size: nat, contents: map<Key, seq<byte>>)
    requires size > 0
  {
    forall i | 0 <= i < |table| ::
      var r := RecordOf(table[i], records, size);
      r.Some? ==> r.value.key in contents && contents[r.value.key] == r.value.value
  }

  lemma MapUpdated(m: map<Key, seq<byte>>, key: Key, value: seq<byte>)
    ensures m[key := value].Keys == m.Keys + {key}
    ensures |m[key := value]| == if key in m then |m| else |m| + 1
  {
    assert |m| == |m.Keys| && |m[key := value]| == |m[key := value].Keys|;
    if key in m { assert m.Keys + {key} == m.Keys; }
  }

  lemma MemberKey(slots: Slots, key: Key)
    ensures Some(key) in slots <==> key in KeysOf(slots)
  {
    if Some(key) in slots {
      var i: nat :| i < |slots| && slots[i] == Some(key);
      assert slots[i].value in KeysOf(slots);
    }
  }

  lemma KeyAdded(slots: Slots, i: nat, key: Key)
    requires i < |slots| && slots[i].None?
    ensures KeysOf(slots[i := Some(key)]) == KeysOf(slots) + {key}
  {
    var after := slots[i := Some(key)];
    forall k | k in KeysOf(slots) ensures k in KeysOf(after) {
      var j: nat :| j < |slots| && slots[j].Some? && slots[j].value == k;
      assert after[j].value == k;
    }
    assert after[i].value in KeysOf(after);
  }

  /** New records do not change what the entries denote. */
  lemma NewRecordKeepsSlots(table: seq<Entry>, records: map<Position, Record>, size: nat, hash: Hash, secret: uint64,
                            contents: map<Key, seq<byte>>, p: Position, r: Record)
    requires size > 0 && EntriesOk(table, records, size, hash, secret) && p !in records
    requires ValuesOk(table, records, size, contents)
    ensures EntriesOk(table, records[p := r], size, hash, secret)
    ensures ValuesOk(table, records[p := r], size, contents)
    ensures SlotsOf(table, records[p := r], size) == SlotsOf(table, records, size)
  {
    forall i | 0 <= i < |table|
      ensures RecordOf(table[i], records[p := r], size) == RecordOf(table[i], records, size)
      ensures EntryOk(table[i], records[p := r], size, hash, secret)
    {
      assert EntryOk(table[i], records, size, hash, secret);
    }
  }

  /** Writing a record's index to an empty entry, or to the entry of the same key. */
  lemma EntryWritten(table: seq<Entry>, records: map<Position, Record>, size: nat, hash: Hash, secret: uint64,
                     t: nat, index: nat, key: Key)
    requires size > 0 && EntriesOk(table, records, size, hash, secret) && t < |table|
    requires 0 < index < INDEX_LIMIT && Locate(index, size) in records
    requires records[Locate(index, size)].key == key
    ensures var after := table[t := WriteIndex(EMPTY_ENTRY.(hashByte := HashByte(hash(key, secret))), index)];
            && EntriesOk(after, records, size, hash, secret)
            && SlotsOf(after, records, size) == SlotsOf(table, records, size)[t := Some(key)]
            && RecordOf(after[t], records, size) == Some(records[Locate(index, size)])
  {
    var e := WriteIndex(EMPTY_ENTRY.(hashByte := HashByte(hash(key, secret))), index);
    IndexSurvives(EMPTY_ENTRY.(hashByte := HashByte(hash(key, secret))), index);
    assert EntryOk(e, records, size, hash, secret);
    assert SlotOf(e, records, size) == Some(key);
  }

  lemma EmptyTable(n: nat, records: map<Position, Record>, size: nat, hash: Hash, secret: uint64,
                   contents: map<Key, seq<byte>>)
    requires size > 0
    ensures var table := Blank(n);
            && EntriesOk(table, records, size, hash, secret)
            && ValuesOk(table, records, size, contents)
            && ProbeOk(SlotsOf(table, records, size), hash, secret)
            && Taken(SlotsOf(table, records, size)) == {}
            && KeysOf(SlotsOf(table, records, size)) == {}
  {
    IndexSurvives(EMPTY_ENTRY, 0);
    var slots := SlotsOf(Blank(n), records, size);
    assert forall i | 0 <= i < n :: slots[i] == None;
  }

  /** Filling the empty entry a search ended at adds one key and its value. */
  lemma KeyInserted(table: seq<Entry>, records: map<Position, Record>, size: nat, hash: Hash, secret: uint64,
                    contents: map<Key, seq<byte>>, t: nat, index: nat, key: Key)
    requires size > 0 && EntriesOk(table, records, size, hash, secret) && t < |table|
    requires ValuesOk(table, records, size, contents)
    requires 0 < index < INDEX_LIMIT && Locate(index, size) in records
    requires records[Locate(index, size)].key == key
    requires var slots, home := SlotsOf(table, records, size), Home(hash, secret, key, |table|);
             && ProbeOk(slots, hash, secret) && Some(key) !in slots && slots[t].None?
             && PathFull(slots, home, Steps(home, t, |table|))
    ensures var after := table[t := WriteIndex(EMPTY_ENTRY.(hashByte := HashByte(hash(key, secret))), index)];
            var slots, now := SlotsOf(table, records, size), SlotsOf(after, records, size);
            && EntriesOk(after, records, size, hash, secret) && ProbeOk(now, hash, secret)
            && ValuesOk(after, records, size, contents[key := records[Locate(index, size)].value])
            && KeysOf(now) == KeysOf(slots) + {key} && |Taken(now)| == |Taken(slots)| + 1
  {
    hide ProbeOk, PathFull, KeysOf, Taken, EntriesOk, Locate, HashByte;
    var slots, home := SlotsOf(table, records, size), Home(hash, secret, key, |table|);
    EntryWritten(table, records, size, hash, secret, t, index, key);
    PlaceKeepsProbing(slots, hash, secret, key, Steps(home, t, |table|));
    KeyAdded(slots, t, key);
    assert forall i | 0 <= i < |table| :: slots[i] != Some(key);
  }

  /** Redirecting the entry of a key to a newer record changes only that key's value. */
  lemma KeyUpdated(table: seq<Entry>, records: map<Position, Record>, size: nat, hash: Hash, secret: uint64,
                   contents: map<Key, seq<byte>>, t: nat, index: nat, key: Key)
    requires size > 0 && EntriesOk(table, records, size, hash, secret) && t < |table|
    requires ValuesOk(table, records, size, contents)
    requires 0 < index < INDEX_LIMIT && Locate(index, size) in records
    requires records[Locate(index, size)].key == key
    requires Distinct(SlotsOf(table, records, size)) && SlotsOf(table, records, size)[t] == Some(key)
    ensures var after := table[t := WriteIndex(EMPTY_ENTRY.(hashByte := HashByte(hash(key, secret))), index)];
            && EntriesOk(after, records, size, hash, secret)
            && SlotsOf(after, records, size) == SlotsOf(table, records, size)
            && ValuesOk(after, records, size, contents[key := records[Locate(index, size)].value])
  {
    hide EntriesOk, Locate, HashByte;
    var slots := SlotsOf(table, records, size);
    EntryWritten(table, records, size, hash, secret, t, index, key);
    assert slots[t := Some(key)] == slots;
    assert forall i | 0 <= i < |table| && i != t :: slots[i] != Some(key);
  }

  lemma Denoted(table: seq<Entry>, records: map<Position, Record>, size: nat, hash: Hash, secret: uint64,
                contents: map<Key, seq<byte>>, i: nat)
    requires size > 0 && EntriesOk(table, records, size, hash, secret) && i < |table|
    requires ValuesOk(table, records, size, contents)
    ensures var index := ReadIndex(table[i]);
            if index == 0 then SlotOf(table[i], records, size) == None
            else
              && Locate(index, size) in records
              && SlotOf(table[i], records, size) == Some(records[Locate(index, size)].key)
              && table[i].hashByte == HashByte(hash(records[Locate(index, size)].key, secret))
              && records[Locate(index, size)].key in contents
              && contents[records[Locate(index, size)].key] == records[Locate(index, size)].value
  {
    assert EntryOk(table[i], records, size, hash, secret);
  }

  /** Skipping an entry whose hash byte is neither zero nor the key's never skips the key. */
  lemma SkippedEntry(table: seq<Entry>, records: map<Position, Record>, size: nat, hash: Hash, secret: uint64,
                     i: nat, key: Key)
    requires size > 0 && EntriesOk(table, records, size, hash, secret) && i < |table|
    requires table[i].hashByte != HashByte(hash(key, secret)) && table[i].hashByte != 0
    ensures SlotOf(table[i], records, size).Some? && SlotOf(table[i], records, size) != Some(key)
  {
    assert EntryOk(table[i], records, size, hash, secret);
  }

  lemma EmptyPrefix(slots: Slots)
    ensures KeysOf(slots[..0]) == {} && Taken(slots[..0]) == {}
  {
  }

  /** What one more slot adds to the keys of the slots before it. */
  lemma PrefixGrows(slots: Slots, i: nat)
    requires i < |slots| && Distinct(slots)
    ensures slots[i].Some? ==>
              && Some(slots[i].value) !in slots[..i]
              && KeysOf(slots[..i + 1]) == KeysOf(slots[..i]) + {slots[i].value}
              && |Taken(slots[..i + 1])| == |Taken(slots[..i])| + 1
    ensures slots[i].None? ==>
              && KeysOf(slots[..i + 1]) == KeysOf(slots[..i])
              && |Taken(slots[..i + 1])| == |Taken(slots[..i])|
  {
    hide KeysOf, Taken;
    var empty := slots[..i] + [None];
    EmptySlotAdded(slots[..i]);
    if slots[i].None? {
      assert slots[..i + 1] == empty;
    } else {
      assert slots[..i + 1] == empty[i := slots[i]];
      KeyAdded(empty, i, slots[i].value);
      SlotTaken(empty, i, slots[i].value);
    }
  }

  lemma EmptySlotAdded(slots: Slots)
    ensures Taken(slots + [None]) == Taken(slots) && KeysOf(slots + [None]) == KeysOf(slots)
  {
    var empty := slots + [None];
    forall k | k in KeysOf(slots) ensures k in KeysOf(empty) {
      var j: nat :| j < |slots| && slots[j].Some? && slots[j].value == k;
      assert empty[j].value == k;
    }
  }

  lemma SlotTaken(slots: Slots, i: nat, key: Key)
    requires i < |slots| && slots[i].None?
    ensures |Taken(slots[i := Some(key)])| == |Taken(slots)| + 1
  {
    assert Taken(slots[i := Some(key)]) == Taken(slots) + {i};
  }

  lemma {:induction false} TakenBound(slots: Slots, i: nat)
    requires i <= |slots|
    ensures |Taken(slots[..i])| <= i
  {
    if i == 0 {
    } else {
      TakenBound(slots, i - 1);
      assert Taken(slots[..i]) <= Taken(slots[..i - 1]) + {i - 1};
      SubsetSize(Taken(slots[..i]), Taken(slots[..i - 1]) + {i - 1});
    }
  }

  lemma {:induction false} SubsetSize(a: set<nat>, b: set<nat>)
    requires a <= b
    ensures |a| <= |b|
  {
    if a == {} {
    } else {
      var x :| x in a;
      SubsetSize(a - {x}, b - {x});
    }
  }
}
