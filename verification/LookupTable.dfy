/**
 The lookup hash table: an open-addressing table of packed entries over the record
 arena. Whatever the hash function, it behaves as a map from keys to values.
 */
module LookupTable {
  import opened Bytes
  import opened LenCode
  import opened Arena
  import opened Probe
  import opened LookupEntries

  const MIN_CHUNK_SIZE := 0x20_0000

  datatype LookupResult =
    | Found(tableIndex: nat, dataIndex: nat)
    | NotFound(tableIndex: nat, hashByte: byte)

  /** The size computation of `reserve` overflows a machine word. */
  predicate Overflows(maxEntries: nat)
  {
    5 * maxEntries + 1 >= 0x1_0000_0000_0000_0000
  }

  /** The number of entries allocated for a load factor of 60 percent. */
  function Allocated(maxEntries: nat): (n: nat)
    ensures 3 * n <= 5 * maxEntries + 1 < 3 * n + 3
    ensures maxEntries > 0 ==> n > maxEntries
    ensures maxEntries == 0 ==> n == 0
  {
    (5 * maxEntries + 1) / 3
  }

  /**
   Without overflow checks the computation wraps around. As long as the result can be
   allocated (six bytes an entry, in half the address space), the table has an empty
   entry to spare exactly when nothing overflowed.
   */
  lemma SpareEntryExactly(maxEntries: uint64)
    ensures var n := (5 * maxEntries + 1) % 0x1_0000_0000_0000_0000 / 3;
            6 * n < 0x8000_0000_0000_0000 ==> (n > maxEntries || n == maxEntries == 0 <==> !Overflows(maxEntries))
  {
    var all := 5 * maxEntries + 1;
    if !Overflows(maxEntries) { assert all % 0x1_0000_0000_0000_0000 == all; }
  }

  /** The exponent of the smallest power of two that is at least `n` and at least 2^k. */
  function CeilLog2(n: nat, k: nat): (bits: nat)
    ensures Pow2(bits) >= n && bits >= k
    ensures bits > k ==> Pow2(bits - 1) < n
    decreases if Pow2(k) < n then n - Pow2(k) else 0
  {
    if Pow2(k) >= n then k else CeilLog2(n, k + 1)
  }

  /** The map after inserting the pairs in order. */
  ghost function Merge(contents: map<Key, seq<byte>>, pairs: seq<Record>): map<Key, seq<byte>>
    decreases |pairs|
  {
    if pairs == [] then contents else Merge(contents[pairs[0].key := pairs[0].value], pairs[1..])
  }

  /** The last insertion of a key wins; a key never inserted keeps its value. */
  lemma {:induction false} LastWins(contents: map<Key, seq<byte>>, pairs: seq<Record>, key: Key)
    ensures var m := Merge(contents, pairs);
            if exists i | 0 <= i < |pairs| :: pairs[i].key == key
            then key in m && exists i | 0 <= i < |pairs| ::
                   pairs[i] == Record(key, m[key]) && forall j | i < j < |pairs| :: pairs[j].key != key
            else key in m <==> key in contents
    ensures (forall i | 0 <= i < |pairs| :: pairs[i].key != key) && key in contents ==>
              Merge(contents, pairs)[key] == contents[key]
    decreases |pairs|
  {
    if pairs == [] {
    } else {
      var rest, m := pairs[1..], Merge(contents, pairs);
      LastWins(contents[pairs[0].key := pairs[0].value], rest, key);
      if i :| 0 <= i < |rest| && rest[i].key == key {
        var k :| 0 <= k < |rest| && rest[k] == Record(key, m[key]) && forall j | k < j < |rest| :: rest[j].key != key;
        assert pairs[k + 1] == Record(key, m[key]);
        forall j | k + 1 < j < |pairs| ensures pairs[j].key != key { assert pairs[j] == rest[j - 1]; }
        assert pairs[k + 1].key == key;
      } else {
        forall j | 0 < j < |pairs| ensures pairs[j].key != key { assert pairs[j] == rest[j - 1]; }
        if pairs[0].key == key { assert pairs[0] == Record(key, m[key]); }
      }
    }
  }

  /** `chunk[at..at + |bytes|].copy_from_slice(bytes)` */
  method CopyInto(chunk: array<byte>, at: nat, bytes: seq<byte>)
    requires at + |bytes| <= chunk.Length
    modifies chunk
    ensures chunk[..] == Splice(old(chunk[..]), at, bytes)
  {
    forall i | 0 <= i < |bytes| {
      chunk[at + i] := bytes[i];
    }
    assert chunk[..] == Splice(old(chunk[..]), at, bytes);
  }

  /** Writes both lengths, the key and the value; returns the index behind the value. */
  method WriteRecord(chunk: array<byte>, index: nat, key: seq<byte>, value: seq<byte>) returns (end: nat)
    requires index + |Encode(Record(key, value))| <= chunk.Length
    modifies chunk
    ensures end == index + |Encode(Record(key, value))|
    ensures chunk[..] == Splice(old(chunk[..]), index, Encode(Record(key, value)))
  {
    hide Splice, EncodeLen;
    ghost var before := chunk[..];
    ghost var k, v := EncodeLen(|key|), EncodeLen(|value|);
    var size := WriteLen(chunk, index, |key|);
    var keyIndex := index + size;
    CopyInto(chunk, keyIndex, key);
    SpliceTwice(before, index, k, key);
    var valueLenIndex := keyIndex + |key|;
    size := WriteLen(chunk, valueLenIndex, |value|);
    SpliceTwice(before, index, k + key, v);
    var valueIndex := valueLenIndex + size;
    CopyInto(chunk, valueIndex, value);
    SpliceTwice(before, index, k + key + v, value);
    end := valueIndex + |value|;
  }

  /** Reads the key of the record `r` stored at `index`. */
  method ReadKeyAt(chunk: array<byte>, index: nat, ghost r: Record) returns (key: seq<byte>)
    requires Storable(r) && StoredAt(chunk[..], index, r)
    ensures key == r.key
  {
    ReadsRecord(chunk[..], index, r);
    key := KeyIn(chunk[..], index);
  }

  method ReadValueAt(chunk: array<byte>, index: nat, ghost r: Record) returns (value: seq<byte>)
    requires Storable(r) && StoredAt(chunk[..], index, r)
    ensures value == r.value
  {
    ReadsRecord(chunk[..], index, r);
    value := ValueIn(chunk[..], index);
  }

  class LookupHtbl {
    var table: seq<Entry>
    var dataChunks: seq<array<byte>>
    var maxEntries: nat
    var usedData: nat
    var usedEntries: nat
    var hashSecret: uint64
    var chunkBits: nat
    var chunkSize: nat
    var chunkMask: nat
    const hash: Hash

    // The contents of the chunks, the first free offset in the last one, and every record
    // ever written; `StorageOk` ties them to the chunks themselves.
    ghost var arena: seq<seq<byte>>
    ghost var fill: nat
    ghost var records: map<Position, Record>

    // The abstract map; `Valid` ties it to the entries and the records they denote.
    ghost var contents: map<Key, seq<byte>>

    /** The objects this table owns. */
    ghost function Repr(): set<object>
      reads this
    {
      {this} + (set c: array<byte> | c in dataChunks :: c as object)
    }

    /** `arena` is what the chunks hold, and no two chunks are the same array. */
    ghost predicate Mirrors()
      reads `arena, `dataChunks, `chunkSize, dataChunks
    {
      && |arena| == |dataChunks|
      && (forall c | 0 <= c < |dataChunks| :: dataChunks[c].Length == chunkSize && dataChunks[c][..] == arena[c])
      && (forall c, d | 0 <= c < d < |dataChunks| :: dataChunks[c] != dataChunks[d])
    }

    ghost predicate StorageOk()
      reads `arena, `dataChunks, `chunkSize, `chunkBits, `chunkMask, `usedData, `fill, `records, dataChunks
    {
      && chunkSize == Pow2(chunkBits) >= MIN_CHUNK_SIZE && chunkMask == chunkSize - 1
      && Mirrors() && |arena| == |dataChunks|
      && UsedOk(|arena|, chunkSize, usedData, fill) && usedData >= 1
      && ArenaOk(arena, chunkSize, fill, records)
    }

    ghost function Slots(): (slots: Slots)
      requires chunkSize > 0
      reads this
      ensures |slots| == |table|
    {
      SlotsOf(table, records, chunkSize)
    }

    /** The entries fit the records, the abstract map and the probing order. */
    ghost predicate Entered()
      requires chunkSize > 0
      reads this
    {
      && EntriesOk(table, records, chunkSize, hash, hashSecret)
      && ValuesOk(table, records, chunkSize, contents)
      && ProbeOk(Slots(), hash, hashSecret)
    }

    /** The table holds exactly the keys of the abstract map. */
    ghost predicate Agrees()
      requires chunkSize > 0
      reads this
    {
      && Entered()
      && |Taken(Slots())| == usedEntries == |contents|
      && KeysOf(Slots()) == contents.Keys
    }

    /** The invariant of a table that has been given entries; some entry is always empty. */
    ghost predicate Loaded()
      reads this, dataChunks
    {
      StorageOk() && chunkSize > 0 && Agrees() && usedEntries <= maxEntries < |table|
    }

    ghost predicate Valid()
      reads this, dataChunks
    {
      && usedEntries == |contents|
      && (table == [] ==> usedEntries == maxEntries == 0 && dataChunks == [])
      && (table != [] ==> maxEntries > 0 && Loaded())
    }

    constructor (hash: Hash)
      ensures Valid() && contents == map[] && table == [] && dataChunks == []
      ensures this.hash == hash
    {
      table, dataChunks := [], [];
      maxEntries, usedData, usedEntries, hashSecret := 0, 0, 0, 0;
      chunkBits, chunkSize, chunkMask := 0, 0, 0;
      this.hash := hash;
      arena, fill, records, contents := [], 0, map[], map[];
    }

    lemma EmptyIsLoaded(n: nat)
      requires table == Blank(n) && usedEntries == 0 <= maxEntries < n
      requires dataChunks == [] && arena == [] && usedData == 1 && fill == 0
      requires records == map[] && contents == map[]
      requires chunkSize == Pow2(chunkBits) >= MIN_CHUNK_SIZE && chunkMask == chunkSize - 1
      ensures Loaded()
    {
      hide Pow2;
      EmptyTable(n, records, chunkSize, hash, hashSecret, contents);
    }

    method Reset(max: nat, draw: uint64)
      modifies this
      ensures Valid() && contents == map[] && records == map[]
      ensures |table| == Allocated(max) && maxEntries == max && dataChunks == [] && hashSecret == draw
      ensures chunkSize == Pow2(CeilLog2(Allocated(max), 21)) && usedData == 1
    {
      hide CeilLog2, Pow2, Loaded, Allocated, LeBytes, FromLe, Blank;
      var allocatedEntries := Allocated(max);
      maxEntries := max;
      table := Blank(allocatedEntries);
      dataChunks := [];
      usedData := 1;
      usedEntries := 0;
      hashSecret := draw;
      chunkBits := CeilLog2(allocatedEntries, 21);
      chunkSize := Pow2(chunkBits);
      chunkMask := chunkSize - 1;
      arena, fill, records, contents := [], 0, map[], map[];
      MinChunk(chunkBits);
      if max > 0 { EmptyIsLoaded(allocatedEntries); }
    }

    /**
     Sets the initial size; `draw` is what the random number generator returns. An
     overflow of the size computation panics, as it does with overflow checks.
     */
    method Reserve(max: nat, draw: uint64) returns (r: Outcome<()>)
      requires Valid()
      modifies this
      ensures r.Panic? <==> old(usedEntries) == 0 && (5 * max + 1 >= 0x1_0000_0000_0000_0000 || draw == 0)
      ensures old(usedEntries) != 0 ==> unchanged(this)
      ensures r.Done? ==> Valid() && contents == old(contents)
      ensures r.Done? && old(usedEntries) == 0 ==>
        && |table| == Allocated(max) && maxEntries == max && dataChunks == [] && records == map[] && hashSecret == draw
        && chunkSize == Pow2(CeilLog2(Allocated(max), 21)) && usedData == 1
    {
      hide CeilLog2, Pow2, Loaded, Allocated;
      if usedEntries != 0 {
        return Done(());
      }
      if Overflows(max) || draw == 0 {
        return Panic;
      }
      Reset(max, draw);
      return Done(());
    }

    /** The key of the record at a data index. */
    method ReadKey(dataIndex: nat) returns (key: seq<byte>)
      requires StorageOk() && Locate(dataIndex, chunkSize) in records
      ensures key == records[Locate(dataIndex, chunkSize)].key
    {
      var at := Locate(dataIndex, chunkSize);
      assert Live(arena, at, records[at]);
      key := ReadKeyAt(dataChunks[at.chunk], at.offset, records[at]);
    }

    method ReadValue(dataIndex: nat) returns (value: seq<byte>)
      requires StorageOk() && Locate(dataIndex, chunkSize) in records
      ensures value == records[Locate(dataIndex, chunkSize)].value
    {
      var at := Locate(dataIndex, chunkSize);
      assert Live(arena, at, records[at]);
      value := ReadValueAt(dataChunks[at.chunk], at.offset, records[at]);
    }

    /**
     Finds the entry of a key, or the empty entry where it belongs. The search is over
     after at most as many steps as there are entries, because one of them is empty.
     */
    method Lookup(key: Key) returns (r: LookupResult)
      requires StorageOk() && chunkSize > 0 && Entered() && |Taken(Slots())| < |table|
      ensures r.tableIndex < |table|
      ensures r.Found? ==>
        && r.dataIndex == ReadIndex(table[r.tableIndex]) != 0
        && Locate(r.dataIndex, chunkSize) in records
        && Slots()[r.tableIndex] == Some(key)
        && table[r.tableIndex].hashByte == HashByte(hash(key, hashSecret))
      ensures r.NotFound? ==>
        && Some(key) !in Slots()
        && Slots()[r.tableIndex].None?
        && r.hashByte == HashByte(hash(key, hashSecret))
        && var home := Home(hash, hashSecret, key, |table|);
           PathFull(Slots(), home, Steps(home, r.tableIndex, |table|))
    {
      hide StorageOk, ProbeOk, Passed, ValuesOk, KeysOf, EntriesOk, SlotsOf, SlotOf, Taken, Locate, PathFull;
      var keyHash := hash(key, hashSecret);
      var keyHashByte := HashByte(keyHash);
      var tableIndex := Reduce(keyHash, |table|);
      ghost var slots, home, n, d := Slots(), tableIndex, |table|, 0;
      ghost var stop := EmptyAhead(slots, home);
      NonePassed(slots, home, key);
      while true
        invariant d <= stop && tableIndex == At(home, d, n) && Passed(slots, home, key, d)
        decreases stop - d
      {
        var entry := table[tableIndex];
        while entry.hashByte != keyHashByte && entry.hashByte != 0
          invariant d <= stop && tableIndex == At(home, d, n) && Passed(slots, home, key, d)
          invariant entry == table[tableIndex]
          decreases stop - d
        {
          SkippedEntry(table, records, chunkSize, hash, hashSecret, tableIndex, key);
          OnePassed(slots, home, key, d, stop);
          tableIndex := Next(tableIndex, |table|);
          d := d + 1;
          entry := table[tableIndex];
        }
        var dataIndex := ReadIndex(entry);
        Denoted(table, records, chunkSize, hash, hashSecret, contents, tableIndex);
        if dataIndex == 0 {
          MissIsFinal(slots, hash, hashSecret, key, d);
          return NotFound(tableIndex, keyHashByte);
        }
        if entry.hashByte == keyHashByte {
          var found := ReadKey(dataIndex);
          if key == found {
            return Found(tableIndex, dataIndex);
          }
        }
        OnePassed(slots, home, key, d, stop);
        tableIndex := Next(tableIndex, |table|);
        d := d + 1;
      }
    }

    /** The storage after a record has been written: one more record, none changed. */
    ghost predicate Appended(before: map<Position, Record>, index: nat, r: Record)
      requires chunkSize > 0
      reads this
    {
      && index > 0
      && Locate(index, chunkSize) !in before
      && records == before[Locate(index, chunkSize) := r]
    }

    method WriteAt(chunkIndex: nat, index: nat, key: seq<byte>, value: seq<byte>) returns (end: nat)
      requires Mirrors() && chunkIndex < |dataChunks|
      requires index + |Encode(Record(key, value))| <= chunkSize
      modifies this`arena, dataChunks[chunkIndex]
      ensures Mirrors() && end == index + |Encode(Record(key, value))|
      ensures arena == old(arena)[chunkIndex := Splice(old(arena)[chunkIndex], index, Encode(Record(key, value)))]
    {
      hide Encode;
      end := WriteRecord(dataChunks[chunkIndex], index, key, value);
      arena := arena[chunkIndex := Splice(arena[chunkIndex], index, Encode(Record(key, value)))];
    }

    method AddChunk()
      requires Mirrors()
      modifies this`arena, this`dataChunks
      ensures Mirrors() && |dataChunks| == old(|dataChunks|) + 1
      ensures dataChunks[..old(|dataChunks|)] == old(dataChunks) && fresh(dataChunks[old(|dataChunks|)])
      ensures arena == old(arena) + [seq(chunkSize, _ => 0)]
    {
      var values := new byte[chunkSize](_ => 0);
      dataChunks := dataChunks + [values];
      arena := arena + [seq(chunkSize, _ => 0)];
      assert values[..] == seq(chunkSize, _ => 0);
    }

    /** Writes a record that fits, in a new chunk if there is none at `chunkIndex`. */
    method AppendData(chunkIndex: nat, key: seq<byte>, value: seq<byte>) returns (start: nat)
      requires StorageOk() && Storable(Record(key, value))
      requires !DoesNotFit(|dataChunks|, chunkSize, Record(key, value))
      requires chunkIndex == TargetChunk(chunkSize, usedData, Record(key, value))
      modifies this`dataChunks, this`usedData, this`arena, this`fill, this`records, dataChunks
      ensures StorageOk() && Appended(old(records), start, Record(key, value))
      ensures start == Placement(old(|dataChunks|), chunkSize, old(usedData), Record(key, value))
      ensures |dataChunks| == chunkIndex + 1 && usedData == start + |Encode(Record(key, value))|
      ensures forall c | c in dataChunks :: c in old(dataChunks) || fresh(c)
    {
      hide Encode, Pow2, ArenaOk, Mirrors, DoesNotFit, UsedOk, TargetChunk, Locate;
      ghost var rec, before := Record(key, value), arena;
      PlacedInOneChunk(|dataChunks|, chunkSize, usedData, fill, rec);
      if |dataChunks| <= chunkIndex {
        AddChunk();
        usedData := if chunkIndex == 0 then 1 else chunkSize * chunkIndex;
      }
      start := usedData;
      var at := Locate(start, chunkSize);
      var end := WriteAt(chunkIndex, at.offset, key, value);
      usedData := usedData + end - at.offset;
      WritingKeepsArena(before, chunkSize, fill, records, at, rec, seq(chunkSize, _ => 0));
      fill := end;
      records := records[at := rec];
    }

    /** Appends a record to the arena; panics exactly when it cannot be placed in one chunk. */
    method NewData(key: seq<byte>, value: seq<byte>) returns (r: Outcome<nat>)
      requires StorageOk()
      requires Storable(Record(key, value)) || DoesNotFit(|dataChunks|, chunkSize, Record(key, value))
      modifies this`dataChunks, this`usedData, this`arena, this`fill, this`records, dataChunks
      ensures r.Panic? <==> DoesNotFit(old(|dataChunks|), chunkSize, Record(key, value))
      ensures r.Done? ==>
        && StorageOk() && Appended(old(records), r.value, Record(key, value))
        && r.value == Placement(old(|dataChunks|), chunkSize, old(usedData), Record(key, value))
        && |dataChunks| == TargetChunk(chunkSize, old(usedData), Record(key, value)) + 1
        && usedData == r.value + |Encode(Record(key, value))|
      ensures forall c | c in dataChunks :: c in old(dataChunks) || fresh(c)
    {
      hide ArenaOk, Mirrors, DoesNotFit;
      PanicsExactly(|dataChunks|, chunkSize, usedData, fill, Record(key, value));
      var additional := 2 * INDEX_SIZE + |key| + |value|;
      if additional >= chunkSize {
        return Panic;
      }
      var chunkIndex := (usedData + additional) / chunkSize;
      if chunkIndex > |dataChunks| {
        // One chunk is pushed, and the one at `chunkIndex` does not exist.
        return Panic;
      }
      var start := AppendData(chunkIndex, key, value);
      return Done(start);
    }

    /** Doubles the table and places every record in it again. */
    method GrowTable(draw: uint64) returns (r: Outcome<()>)
      requires Valid()
      modifies this
      ensures r.Panic? <==> old(maxEntries) == 0 && draw == 0
      ensures r.Done? ==> Valid() && contents == old(contents) && usedEntries < maxEntries
      ensures r.Done? && old(maxEntries) == 0 ==>
        && |table| == Allocated(1) && maxEntries == 1 && dataChunks == [] && records == map[] && hashSecret == draw
        && chunkSize == Pow2(CeilLog2(Allocated(1), 21)) && usedData == 1
      ensures old(maxEntries) > 0 ==>
        && |table| == 2 * old(|table|) && maxEntries == 2 * old(maxEntries)
        && unchanged(`dataChunks, `usedData, `usedEntries, `hashSecret, `chunkBits, `chunkSize, `chunkMask,
                     `arena, `fill, `records, `contents)
    {
      hide Loaded;
      if maxEntries == 0 {
        r := Reserve(1, draw);
        return;
      }
      Rehash();
      return Done(());
    }

    /** Places a record in the new table; its key is not there, so the panic branch is dead. */
    method PlaceAgain(rawIndex: nat)
      requires StorageOk() && chunkSize > 0 && Entered() && |Taken(Slots())| < |table|
      requires 0 < rawIndex < INDEX_LIMIT && Locate(rawIndex, chunkSize) in records
      requires var r := records[Locate(rawIndex, chunkSize)];
               r.key in contents && contents[r.key] == r.value && r.key !in KeysOf(Slots())
      modifies `table
      ensures Entered() && |table| == old(|table|)
      ensures KeysOf(Slots()) == old(KeysOf(Slots())) + {records[Locate(rawIndex, chunkSize)].key}
      ensures |Taken(Slots())| == old(|Taken(Slots())|) + 1
    {
      hide StorageOk, EntriesOk, ProbeOk, ValuesOk, KeysOf, Taken, PathFull, SlotsOf, Locate;
      var key := ReadKey(rawIndex);
      var found := Lookup(key);
      MemberKey(Slots(), key);
      match found {
        case NotFound(tableIndex, hashByte) =>
          KeyInserted(table, records, chunkSize, hash, hashSecret, contents, tableIndex, rawIndex, key);
          assert contents[key := records[Locate(rawIndex, chunkSize)].value] == contents;
          var entry := table[tableIndex].(hashByte := hashByte);
          table := table[tableIndex := WriteIndex(entry, rawIndex)];
        case Found(_, _) =>
          assert false;
      }
    }

    /** Every old entry is placed in a table of twice the length. */
    method Rehash()
      requires maxEntries > 0 && Loaded()
      modifies `table, `maxEntries
      ensures Loaded() && usedEntries < maxEntries
      ensures |table| == 2 * old(|table|) && maxEntries == 2 * old(maxEntries)
    {
      hide StorageOk, EntriesOk, ProbeOk, ValuesOk, KeysOf, Taken, SlotsOf, Distinct, SlotOf, Locate;
      var oldTable := table;
      ghost var was := Slots();
      KeysDistinct(was, hash, hashSecret);
      table := Blank(2 * |oldTable|);
      maxEntries := 2 * maxEntries;
      EmptyTable(2 * |oldTable|, records, chunkSize, hash, hashSecret, contents);
      EmptyPrefix(was);
      for i := 0 to |oldTable|
        invariant |table| == 2 * |oldTable| && maxEntries == 2 * old(maxEntries)
        invariant StorageOk() && Entered()
        invariant KeysOf(Slots()) == KeysOf(was[..i]) && |Taken(Slots())| == |Taken(was[..i])|
      {
        var rawIndex := ReadIndex(oldTable[i]);
        Denoted(oldTable, records, chunkSize, hash, hashSecret, contents, i);
        PrefixGrows(was, i);
        TakenBound(was, i);
        if rawIndex != 0 {
          MemberKey(was[..i], was[i].value);
          PlaceAgain(rawIndex);
        }
      }
      assert was[..|oldTable|] == was;
    }

    /** A key that is present: its entry now denotes the newer record. */
    method Redirect(key: Key, dataIndex: nat, tableIndex: nat)
      requires chunkSize > 0 && Agrees() && tableIndex < |table|
      requires 0 < dataIndex < INDEX_LIMIT && Locate(dataIndex, chunkSize) in records
      requires records[Locate(dataIndex, chunkSize)].key == key
      requires Slots()[tableIndex] == Some(key)
      requires table[tableIndex].hashByte == HashByte(hash(key, hashSecret))
      modifies `table, `contents
      ensures Agrees() && |table| == old(|table|) && key in old(contents)
      ensures contents == old(contents)[key := records[Locate(dataIndex, chunkSize)].value]
    {
      hide EntriesOk, ProbeOk, ValuesOk, KeysOf, Taken, SlotsOf, Locate, Distinct;
      ghost var value := records[Locate(dataIndex, chunkSize)].value;
      KeysDistinct(Slots(), hash, hashSecret);
      MemberKey(Slots(), key);
      MapUpdated(contents, key, value);
      KeyUpdated(table, records, chunkSize, hash, hashSecret, contents, tableIndex, dataIndex, key);
      table := table[tableIndex := WriteIndex(table[tableIndex], dataIndex)];
      contents := contents[key := value];
    }

    /** A key that is absent: the empty entry its search ended at is filled. */
    method Fill(key: Key, dataIndex: nat, tableIndex: nat, hashByte: byte)
      requires chunkSize > 0 && Agrees() && tableIndex < |table|
      requires 0 < dataIndex < INDEX_LIMIT && Locate(dataIndex, chunkSize) in records
      requires records[Locate(dataIndex, chunkSize)].key == key
      requires Some(key) !in Slots() && Slots()[tableIndex].None?
      requires hashByte == HashByte(hash(key, hashSecret))
      requires var home := Home(hash, hashSecret, key, |table|);
               PathFull(Slots(), home, Steps(home, tableIndex, |table|))
      modifies `table, `usedEntries, `contents
      ensures Agrees() && |table| == old(|table|) && key !in old(contents)
      ensures usedEntries == old(usedEntries) + 1
      ensures contents == old(contents)[key := records[Locate(dataIndex, chunkSize)].value]
    {
      hide EntriesOk, ProbeOk, ValuesOk, KeysOf, Taken, SlotsOf, Locate, PathFull;
      ghost var value := records[Locate(dataIndex, chunkSize)].value;
      MemberKey(Slots(), key);
      MapUpdated(contents, key, value);
      KeyInserted(table, records, chunkSize, hash, hashSecret, contents, tableIndex, dataIndex, key);
      var entry := table[tableIndex].(hashByte := hashByte);
      table := table[tableIndex := WriteIndex(entry, dataIndex)];
      usedEntries := usedEntries + 1;
      contents := contents[key := value];
    }

    /** Points the table at the new record of a key; returns the value it had before. */
    method Enter(key: Key, dataIndex: nat) returns (prior: Option<seq<byte>>)
      requires StorageOk() && chunkSize > 0 && Agrees() && usedEntries < maxEntries < |table|
      requires 0 < dataIndex < INDEX_LIMIT && Locate(dataIndex, chunkSize) in records
      requires records[Locate(dataIndex, chunkSize)].key == key
      modifies `table, `usedEntries, `contents
      ensures Loaded() && |table| == old(|table|)
      ensures contents == old(contents)[key := records[Locate(dataIndex, chunkSize)].value]
      ensures prior == if key in old(contents) then Some(old(contents)[key]) else None
    {
      hide StorageOk, EntriesOk, ProbeOk, ValuesOk, KeysOf, Taken, PathFull, SlotsOf, Locate;
      var found := Lookup(key);
      match found {
        case Found(tableIndex, oldDataIndex) =>
          Denoted(table, records, chunkSize, hash, hashSecret, contents, tableIndex);
          Redirect(key, dataIndex, tableIndex);
          var oldValue := ReadValue(oldDataIndex);
          prior := Some(oldValue);
        case NotFound(tableIndex, hashByte) =>
          Fill(key, dataIndex, tableIndex, hashByte);
          prior := None;
      }
    }

    /** Where the next record would go; an empty table is first given room for one entry. */
    ghost function NextLayout(): (l: Layout)
      requires Valid()
      reads this, dataChunks
      ensures l.size >= MIN_CHUNK_SIZE && l.used >= 1
    {
      if table == [] then Layout(0, MIN_CHUNK_SIZE, 1) else Layout(|dataChunks|, chunkSize, usedData)
    }

    /**
     Every record ever written lies inside one chunk, is still there byte for byte, and
     shares no byte with any other.
     */
    lemma RecordsIntact(p: Position, q: Position)
      requires Loaded() && p in records && q in records
      ensures p.chunk < |dataChunks| && p != Position(0, 0)
      ensures p.offset + |Encode(records[p])| <= dataChunks[p.chunk].Length == chunkSize
      ensures dataChunks[p.chunk][p.offset..p.offset + |Encode(records[p])|] == Encode(records[p])
      ensures p != q ==> Apart(p, records[p], q, records[q])
    {
      hide Encode, Agrees, Pow2, UsedOk;
      assert Live(arena, p, records[p]);
    }

    /**
     How the table is sized for one more entry: for one entry with a new secret at first,
     twice as large when it has as many as it was made for, and otherwise as it was.
     */
    ghost predicate Sized(was: seq<Entry>, used: nat, max: nat, secret: uint64, draw: uint64)
      reads this
    {
      if was == [] then |table| == Allocated(1) && maxEntries == 1 && hashSecret == draw
      else
        && hashSecret == secret
        && (if used < max then |table| == |was| && maxEntries == max
            else |table| == 2 * |was| && maxEntries == 2 * max)
    }

    /** Makes sure there is an empty entry to spare, and somewhere to put a record. */
    method MakeRoom(draw: uint64) returns (r: Outcome<()>)
      requires Valid()
      modifies this
      ensures r.Panic? <==> old(table) == [] && draw == 0
      ensures r.Done? ==> Valid() && table != [] && usedEntries < maxEntries
      ensures r.Done? ==> contents == old(contents) && NextLayout() == old(NextLayout())
      ensures r.Done? ==> dataChunks == old(dataChunks)
      ensures r.Done? && old(table) != [] ==> records == old(records)
      ensures r.Done? ==> Sized(old(table), old(usedEntries), old(maxEntries), old(hashSecret), draw)
    {
      hide Loaded, CeilLog2, Pow2;
      OneEntryChunk();
      if usedEntries >= maxEntries {
        r := GrowTable(draw);
      } else {
        r := Done(());
      }
    }

    /** Stores a key and value; returns the value the key had before, if any. */
    method Insert(key: Key, value: seq<byte>, draw: uint64) returns (r: Outcome<Option<seq<byte>>>)
      requires Valid() && HasRoom(NextLayout(), Record(key, value))
      modifies Repr()
      ensures r.Panic? <==>
        || old(table == [] && draw == 0)
        || old(Refused(NextLayout(), Record(key, value)))
      ensures r.Done? ==> Valid() && contents == old(contents)[key := value]
      ensures r.Done? ==> r.value == if key in old(contents) then Some(old(contents)[key]) else None
      ensures r.Done? ==> table != [] && NextLayout() == old(After(NextLayout(), Record(key, value)))
      ensures r.Done? && old(table) != [] ==> old(records).Keys <= records.Keys
      ensures r.Done? && old(table) != [] ==> forall p | p in old(records) :: records[p] == old(records)[p]
      ensures r.Done? ==> fresh(Repr() - old(Repr()))
      ensures r.Done? ==> Sized(old(table), old(usedEntries), old(maxEntries), old(hashSecret), draw)
    {
      hide StorageOk, EntriesOk, ProbeOk, ValuesOk, KeysOf, Taken, SlotsOf, Locate, DoesNotFit, Encode, TargetChunk;
      var room := MakeRoom(draw);
      if room.Panic? {
        return Panic;
      }
      ghost var before := records;
      assert forall c | c in dataChunks :: c in old(Repr());
      var added := NewData(key, value);
      if added.Panic? {
        return Panic;
      }
      NewRecordKeepsSlots(table, before, chunkSize, hash, hashSecret, contents,
                          Locate(added.value, chunkSize), Record(key, value));
      var prior := Enter(key, added.value);
      return Done(prior);
    }

    /** Inserts the pairs in order. */
    method Extend(pairs: seq<Record>, draw: uint64) returns (r: Outcome<()>)
      requires Valid() && HasRoomForAll(NextLayout(), pairs)
      modifies Repr()
      ensures r.Panic? <==>
        || old(table == [] && pairs != [] && draw == 0)
        || old(SomeRefused(NextLayout(), pairs))
      ensures r.Done? ==> Valid() && contents == Merge(old(contents), pairs)
      ensures r.Done? ==> NextLayout() == AfterAll(old(NextLayout()), pairs)
      ensures r.Done? ==> (table == [] <==> old(table) == [] && pairs == [])
      ensures r.Done? ==> fresh(Repr() - old(Repr()))
    {
      hide Loaded, Refused, HasRoom, After;
      var i := 0;
      ghost var all := SomeRefused(NextLayout(), pairs) || (table == [] && pairs != [] && draw == 0);
      while i < |pairs|
        invariant 0 <= i <= |pairs| && Valid() && HasRoomForAll(NextLayout(), pairs[i..])
        invariant Merge(contents, pairs[i..]) == Merge(old(contents), pairs)
        invariant AfterAll(NextLayout(), pairs[i..]) == AfterAll(old(NextLayout()), pairs)
        invariant table == [] <==> old(table) == [] && i == 0
        invariant all == (SomeRefused(NextLayout(), pairs[i..]) || (table == [] && pairs[i..] != [] && draw == 0))
        invariant fresh(Repr() - old(Repr()))
      {
        assert pairs[i..][0] == pairs[i] && pairs[i..][1..] == pairs[i + 1..];
        var done := Insert(pairs[i].key, pairs[i].value, draw);
        if done.Panic? {
          return Panic;
        }
        i := i + 1;
      }
      return Done(());
    }

    method ContainsKey(key: Key) returns (found: bool)
      requires Valid()
      ensures found <==> key in contents
    {
      hide StorageOk, EntriesOk, ProbeOk, ValuesOk, KeysOf, Taken, SlotsOf;
      if table == [] {
        return false;
      }
      MemberKey(Slots(), key);
      var r := Lookup(key);
      return r.Found?;
    }

    method Get(key: Key) returns (value: Option<seq<byte>>)
      requires Valid()
      ensures value == if key in contents then Some(contents[key]) else None
    {
      hide StorageOk, EntriesOk, ProbeOk, ValuesOk, KeysOf, Taken, SlotsOf, Locate;
      if usedEntries == 0 {
        return None;
      }
      MemberKey(Slots(), key);
      var r := Lookup(key);
      match r {
        case Found(tableIndex, dataIndex) =>
          Denoted(table, records, chunkSize, hash, hashSecret, contents, tableIndex);
          var found := ReadValue(dataIndex);
          value := Some(found);
        case NotFound(_, _) =>
          value := None;
      }
    }

    /** The key and value an entry denotes, read from its chunk. */
    method PairAt(tableIndex: nat) returns (item: Option<Record>)
      requires Loaded() && tableIndex < |table|
      ensures item == RecordOf(table[tableIndex], records, chunkSize)
    {
      hide StorageOk, EntriesOk, ProbeOk, ValuesOk, KeysOf, Taken, SlotsOf, Locate;
      var rawIndex := ReadIndex(table[tableIndex]);
      Denoted(table, records, chunkSize, hash, hashSecret, contents, tableIndex);
      if rawIndex == 0 {
        return None;
      }
      var key := ReadKey(rawIndex);
      var value := ReadValue(rawIndex);
      return Some(Record(key, value));
    }

    method Len() returns (n: nat)
      requires Valid()
      ensures n == |contents|
    {
      n := usedEntries;
    }
  }

  /** A table for one entry has chunks of the minimum size. */
  lemma OneEntryChunk()
    ensures Pow2(CeilLog2(Allocated(1), 21)) == MIN_CHUNK_SIZE
  {
    TwoMiB();
  }

  lemma TwoMiB()
    ensures Pow2(21) == MIN_CHUNK_SIZE
  {
    assert Pow2(21) == 32 * Pow2(16) && Pow2(16) == 32 * Pow2(11) && Pow2(11) == 32 * Pow2(6) && Pow2(6) == 64;
  }

  lemma MinChunk(bits: nat)
    requires bits >= 21
    ensures Pow2(bits) >= MIN_CHUNK_SIZE
  {
    if bits == 21 {
      TwoMiB();
    } else {
      MinChunk(bits - 1);
    }
  }

  /** A record one byte smaller than a chunk: the assertion of `new_data` admits it. */
  function AlmostChunk(): (r: Record)
    ensures Additional(r) == MIN_CHUNK_SIZE - 1 && Storable(r)
  {
    Record([], seq(MIN_CHUNK_SIZE - 11, _ => 0))
  }

  /**
   A failing input: on a table reserved for one entry that record passes the assertion,
   which asks for less than a chunk, and panics all the same; behind another record it
   would have been stored.
   */
  method FirstRecordPanics(hash: Hash, draw: uint64) returns (r: Outcome<Option<seq<byte>>>)
    requires draw != 0
    ensures Additional(AlmostChunk()) < MIN_CHUNK_SIZE && r.Panic?
    ensures !DoesNotFit(1, MIN_CHUNK_SIZE, AlmostChunk())
  {
    hide LookupHtbl.Loaded, CeilLog2, Pow2, Encode;
    var h := new LookupHtbl(hash);
    OneEntryChunk();
    var reserved := h.Reserve(1, draw);
    assert reserved.Done? && h.NextLayout() == Layout(0, MIN_CHUNK_SIZE, 1);
    var record := AlmostChunk();
    r := h.Insert(record.key, record.value, draw);
  }
}
