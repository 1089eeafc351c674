/**
 The lookup data manager: a builder that is filled with inserts, and a published table
 that is replaced, never changed, when the builder is finished.
 */
module LookupManager {
  import opened Bytes
  import opened Arena
  import opened Probe
  import opened LookupTable
  import opened LookupRuns

  datatype BuilderState = Empty | Extending

  /** Builds the next lookup data. */
  class DataBuilder {
    var data: LookupHtbl
    var state: BuilderState
    const hash: Hash

    constructor (hash: Hash)
      ensures data.Valid() && data.contents == map[] && data.table == [] && state == Empty
      ensures fresh(data) && fresh(data.Repr()) && this.hash == hash
    {
      data := new LookupHtbl(hash);
      state := Empty;
      this.hash := hash;
    }

    /** Hands over the table and starts again with an empty one. */
    method Build() returns (built: LookupHtbl)
      modifies this
      ensures built == old(data) && state == Empty
      ensures fresh(data) && fresh(data.Repr()) && data.Valid() && data.contents == map[] && data.table == []
    {
      state := Empty;
      built := data;
      data := new LookupHtbl(hash);
    }

    method Reserve(additional: nat, draw: uint64) returns (r: Outcome<()>)
      requires data.Valid()
      modifies data
      ensures r.Panic? <==> Panics(old(View(data)), LookupRuns.Reserve(additional, draw))
      ensures r.Done? ==> data.Valid() && fresh(data.Repr() - old(data.Repr()))
      ensures r.Done? ==> View(data) == Step(old(View(data)), LookupRuns.Reserve(additional, draw))
    {
      hide LookupHtbl.Loaded, CeilLog2, Pow2;
      r := data.Reserve(additional, draw);
    }

    method Extend(pairs: seq<Record>, draw: uint64) returns (r: Outcome<()>)
      requires data.Valid() && HasRoomForAll(data.NextLayout(), pairs) && this !in data.Repr()
      modifies this, data.Repr()
      ensures data == old(data)
      ensures r.Panic? <==>
        || old(data.table == [] && pairs != [] && draw == 0)
        || old(SomeRefused(data.NextLayout(), pairs))
      ensures r.Done? ==> data.Valid() && data.contents == Merge(old(data.contents), pairs) && state == Extending
      ensures r.Done? ==> data.NextLayout() == AfterAll(old(data.NextLayout()), pairs)
      ensures r.Done? ==> (data.table == [] <==> old(data.table) == [] && pairs == [])
      ensures r.Done? ==> fresh(data.Repr() - old(data.Repr()))
    {
      hide LookupHtbl.Valid, HasRoomForAll, SomeRefused, AfterAll, Merge;
      state := Extending;
      r := data.Extend(pairs, draw);
    }
  }

  /** A view of the published table at the time it was created. */
  class LookupData {
    const data: LookupHtbl

    constructor (data: LookupHtbl)
      ensures this.data == data
    {
      this.data := data;
    }

    method Get(key: Key) returns (value: Option<seq<byte>>)
      requires data.Valid()
      ensures value == if key in data.contents then Some(data.contents[key]) else None
    {
      value := data.Get(key);
    }

    method Len() returns (n: nat)
      requires data.Valid()
      ensures n == |data.contents|
    {
      n := data.Len();
    }
  }

  class LookupDataManager {
    var data: LookupHtbl
    const builder: DataBuilder

    // Every table ever published with its contents at that time, and the objects they
    // consist of; `Valid` keeps them so.
    ghost var issued: map<LookupHtbl, map<Key, seq<byte>>>
    ghost var kept: set<object>

    /** A published table is usable and is what it was when it was published. */
    ghost predicate Kept(t: LookupHtbl)
      reads `issued, `kept, kept
    {
      && t in issued && t in kept && (forall c | c in t.dataChunks :: c in kept)
      && t.Valid() && t.contents == issued[t]
    }

    /** The builder's table is usable, and no table ever published shares an object with it. */
    ghost predicate Valid()
      reads this, kept, builder, builder.data, builder.data.dataChunks
      ensures Valid() ==> builder.data.Valid() && data in issued
    {
      && builder.data.Valid() && this !in builder.data.Repr() && builder !in builder.data.Repr()
      && kept !! builder.data.Repr() && builder !in kept
      && data in issued && AllKept()
    }

    ghost predicate AllKept()
      reads `issued, `kept, kept
    {
      this !in kept && forall t | t in issued :: Kept(t)
    }

    /** Adds a table to those that are kept. */
    ghost method Keep(t: LookupHtbl)
      requires AllKept() && t.Valid() && t !in kept && this !in t.Repr()
      modifies this`issued, this`kept
      ensures AllKept() && t !in old(issued)
      ensures issued == old(issued)[t := t.contents] && kept == old(kept) + t.Repr()
    {
      hide LookupHtbl.Valid;
      forall u | u in issued ensures u != t { assert Kept(u); }
      issued, kept := issued[t := t.contents], kept + t.Repr();
      forall u | u in issued ensures Kept(u) { assert u != t ==> old(Kept(u)); }
    }

    lemma PublishedStays(t: LookupHtbl)
      requires Valid() && t in issued
      ensures t.Valid() && t.contents == issued[t]
    {
      hide LookupHtbl.Valid;
      assert Kept(t);
    }

    constructor (hash: Hash)
      ensures Valid() && data.contents == map[] && builder.data.contents == map[] && builder.data.table == []
      ensures fresh(builder) && fresh(builder.data.Repr()) && fresh(kept) && issued.Keys == {data}
    {
      hide LookupHtbl.Valid;
      var empty := new LookupHtbl(hash);
      data := empty;
      builder := new DataBuilder(hash);
      issued := map[empty := map[]];
      kept := empty.Repr();
    }

    /** Sizes the next lookup data; what has been published stays as it is. */
    method Reserve(additional: nat, draw: uint64) returns (r: Outcome<()>)
      requires Valid()
      modifies builder.data
      ensures r.Panic? <==> Panics(old(View(builder.data)), LookupRuns.Reserve(additional, draw))
      ensures r.Done? ==> Valid() && fresh(builder.data.Repr() - old(builder.data.Repr()))
      ensures r.Done? ==> View(builder.data) == Step(old(View(builder.data)), LookupRuns.Reserve(additional, draw))
    {
      hide LookupHtbl.Valid, Step, Panics, LookupHtbl.NextLayout;
      r := builder.Reserve(additional, draw);
      forall t | t in issued ensures Kept(t) { assert old(Kept(t)); }
    }

    /** Extends the next lookup data; what has been published stays as it is. */
    method ExtendNextLookupData(pairs: seq<Record>, draw: uint64) returns (r: Outcome<()>)
      requires Valid() && HasRoomForAll(builder.data.NextLayout(), pairs)
      modifies builder, builder.data.Repr()
      ensures r.Panic? <==>
        || old(builder.data.table == [] && pairs != [] && draw == 0)
        || old(SomeRefused(builder.data.NextLayout(), pairs))
      ensures r.Done? ==> Valid() && builder.data == old(builder.data)
      ensures r.Done? ==> builder.data.contents == Merge(old(builder.data.contents), pairs)
      ensures r.Done? ==> builder.data.NextLayout() == AfterAll(old(builder.data.NextLayout()), pairs)
      ensures r.Done? ==> (builder.data.table == [] <==> old(builder.data.table) == [] && pairs == [])
      ensures r.Done? ==> fresh(builder.data.Repr() - old(builder.data.Repr()))
    {
      hide LookupHtbl.Valid, HasRoomForAll, SomeRefused, AfterAll, Merge;
      r := builder.Extend(pairs, draw);
      if r.Done? {
        forall t | t in issued ensures Kept(t) { assert old(Kept(t)); }
      }
    }

    /** Publishes the builder's table in place of the current one and empties the builder. */
    method FinishNextLookupData()
      requires Valid()
      modifies this, builder
      ensures Valid() && data == old(builder.data) && data !in old(issued)
      ensures data.contents == old(builder.data.contents)
      ensures issued == old(issued)[data := data.contents]
      ensures builder.data.contents == map[] && builder.data.table == []
      ensures fresh(builder.data) && fresh(builder.data.Repr())
    {
      hide LookupHtbl.Valid, Kept;
      data := builder.Build();
      Keep(data);
    }

    /** Throws away what has been built so far. */
    method AbortNextLookupData()
      requires Valid()
      modifies builder
      ensures Valid() && builder.data.contents == map[] && builder.data.table == []
      ensures fresh(builder.data) && fresh(builder.data.Repr())
    {
      hide LookupHtbl.Valid;
      var dropped := builder.Build();
      forall t | t in issued ensures Kept(t) { assert old(Kept(t)); }
    }

    /** A view of what is published now; its table is one of those kept for good. */
    method CreateLookupData() returns (view: LookupData)
      requires Valid()
      ensures fresh(view) && view.data == data && view.data in issued
    {
      view := new LookupData(data);
    }
  }
}
