/** Loading lookup data: the source map is cut into chunks, sent in order, and published. */
module Loader {
  import opened Bytes
  import opened Arena
  import opened Probe
  import opened LookupTable
  import opened LookupIter
  import opened LookupManager
  import opened Chunking

  lemma {:induction false} MergeSum(m: map<Key, seq<byte>>, a: seq<Record>, b: seq<Record>)
    ensures Merge(m, a + b) == Merge(Merge(m, a), b)
    decreases |a|
  {
    if a == [] {
      assert a + b == b;
    } else {
      assert (a + b)[1..] == a[1..] + b;
      MergeSum(m[a[0].key := a[0].value], a[1..], b);
    }
  }

  /** Placing a series in two parts is placing it in one. */
  lemma {:induction false} SeriesSum(l: Layout, a: seq<Record>, b: seq<Record>)
    requires l.size > 0
    ensures AfterAll(l, a).size == l.size
    ensures HasRoomForAll(l, a + b) <==>
            HasRoomForAll(l, a) && (SomeRefused(l, a) || HasRoomForAll(AfterAll(l, a), b))
    ensures SomeRefused(l, a + b) <==> SomeRefused(l, a) || SomeRefused(AfterAll(l, a), b)
    decreases |a|
  {
    hide After, HasRoom, Refused;
    if a == [] {
      assert a + b == b;
    } else {
      assert (a + b)[1..] == a[1..] + b && (a + b)[0] == a[0];
      SeriesSum(After(l, a[0]), a[1..], b);
    }
  }

  /**
   Sends the chunks in order and then publishes. Whatever the builder held before is
   kept underneath. The published table joins those that are kept, and the builder goes
   on with new objects only, so no later load reaches it or any table before it.
   */
  method Update(manager: LookupDataManager, chunks: seq<seq<Record>>, draw: uint64) returns (r: Outcome<()>)
    requires manager.Valid() && HasRoomForAll(manager.builder.data.NextLayout(), Flatten(chunks))
    modifies manager, manager.builder, manager.builder.data.Repr()
    ensures r.Panic? <==> old(Refuses(manager, Flatten(chunks), draw))
    ensures r.Done? ==> manager.Valid()
    ensures r.Done? ==> manager.data.contents == Merge(old(manager.builder.data.contents), Flatten(chunks))
    ensures r.Done? ==> manager.data == old(manager.builder.data) && manager.data !in old(manager.issued)
    ensures r.Done? ==> manager.issued == old(manager.issued)[manager.data := manager.data.contents]
    ensures r.Done? ==> manager.builder.data.contents == map[] && fresh(manager.builder.data.Repr())
  {
    hide LookupHtbl.Valid, LookupDataManager.Valid, HasRoomForAll, SomeRefused, AfterAll, Merge, Flatten;
    var i := 0;
    ghost var all := Flatten(chunks);
    ghost var refused := Refuses(manager, all, draw);
    assert chunks[0..] == chunks;
    FlattenEnd();
    while i < |chunks|
      invariant 0 <= i <= |chunks| && manager.Valid() && manager.builder.data == old(manager.builder.data)
      invariant manager.issued == old(manager.issued)
      invariant fresh(manager.builder.data.Repr() - old(manager.builder.data.Repr()))
      invariant HasRoomForAll(manager.builder.data.NextLayout(), Flatten(chunks[i..]))
      invariant Merge(manager.builder.data.contents, Flatten(chunks[i..])) ==
                Merge(old(manager.builder.data.contents), all)
      invariant refused == Refuses(manager, Flatten(chunks[i..]), draw)
    {
      FlattenStep(chunks, i);
      SeriesSum(manager.builder.data.NextLayout(), chunks[i], Flatten(chunks[i + 1..]));
      MergeSum(manager.builder.data.contents, chunks[i], Flatten(chunks[i + 1..]));
      var done := manager.ExtendNextLookupData(chunks[i], draw);
      if done.Panic? {
        return Panic;
      }
      i := i + 1;
    }
    assert chunks[i..] == [];
    NothingLeft(manager.builder.data.NextLayout(), manager.builder.data.contents);
    manager.FinishNextLookupData();
    return Done(());
  }

  /** Whether sending these entries to the builder panics. */
  ghost predicate Refuses(manager: LookupDataManager, entries: seq<Record>, draw: uint64)
    requires manager.Valid()
    reads manager, manager.kept, manager.builder, manager.builder.data, manager.builder.data.dataChunks
  {
    || (manager.builder.data.table == [] && entries != [] && draw == 0)
    || SomeRefused(manager.builder.data.NextLayout(), entries)
  }

  lemma NothingLeft(l: Layout, m: map<Key, seq<byte>>)
    requires l.size > 0
    ensures !SomeRefused(l, []) && Merge(m, []) == m
  {
  }

  /** Entries with distinct keys, inserted in any order, are exactly the resulting map. */
  lemma DistinctLoad(source: seq<Record>)
    requires DistinctKeys(source)
    ensures Enumerates(source, Merge(map[], source))
  {
    var m := Merge(map[], source);
    forall r: Record ensures r in source <==> r.key in m && m[r.key] == r.value {
      LastWins(map[], source, r.key);
      if r in source {
        var i :| 0 <= i < |source| && source[i] == r;
        assert source[i].key == r.key;
      }
    }
    KeyCount(source);
    assert (set r | r in source :: r.key) == m.Keys by {
      forall k | k in m ensures k in (set r | r in source :: r.key) { assert Record(k, m[k]) in source; }
    }
  }

  lemma ChunksNonempty(source: seq<Record>, limit: nat)
    ensures Chunks(source, limit) != []
  {
  }

  /** Some entry is too large for a chunk, or the first one for the first chunk. */
  ghost predicate TooLarge(l: Layout, source: seq<Record>)
  {
    || (exists i | 0 <= i < |source| :: Additional(source[i]) >= l.size)
    || (l.chunks == 0 && source != [] && Additional(source[0]) == l.size - 1)
  }

  /**
   The whole load, from the source entries in any order to a view of the published
   table, into a builder that holds nothing, sized beforehand or not: it panics exactly
   on an entry too large for a chunk (or a zero random secret), and otherwise every
   lookup answers as the source map does.
   */
  method LoadAndGet(manager: LookupDataManager, source: seq<Record>, limit: nat, draw: uint64, key: Key)
    returns (r: Outcome<Option<seq<byte>>>)
    requires manager.Valid() && manager.builder.data.contents == map[]
    requires DistinctKeys(source) && HasRoomForAll(manager.builder.data.NextLayout(), source)
    modifies manager, manager.builder, manager.builder.data.Repr()
    ensures r.Panic? <==>
      || old(manager.builder.data.table == [] && source != [] && draw == 0)
      || old(TooLarge(manager.builder.data.NextLayout(), source))
    ensures r.Done? ==> manager.Valid() && Enumerates(source, manager.data.contents)
    ensures r.Done? ==> manager.issued == old(manager.issued)[manager.data := manager.data.contents]
    ensures r.Done? ==> manager.data !in old(manager.issued) && fresh(manager.builder.data.Repr())
    ensures r.Done? ==> (r.value.Some? <==> exists s | s in source :: s.key == key)
    ensures r.Done? && r.value.Some? ==> Record(key, r.value.value) in source
  {
    hide LookupHtbl.Valid, LookupDataManager.Valid, HasRoomForAll, SomeRefused, Merge, Flatten, Chunks, ChunkedFrom,
      DistinctKeys, LookupHtbl.NextLayout;
    var chunks := ChunkUpLookupData(source, limit);
    ChunksNonempty(source, limit);
    ChunksExactly(source, limit, chunks);
    RefusedExactly(manager.builder.data.NextLayout(), source);
    DistinctLoad(source);
    var done := Update(manager, chunks, draw);
    if done.Panic? {
      return Panic;
    }
    var view := manager.CreateLookupData();
    manager.PublishedStays(view.data);
    var value := view.Get(key);
    assert value.Some? ==> Record(key, value.value) in source;
    return Done(value);
  }
}
