/**
 Whole runs of the lookup data manager: whatever is called, in whatever order, every view
 goes on showing the table that was published when the view was created.
 */
module ManagerRuns {
  import opened Bytes
  import opened Arena
  import opened Probe
  import opened LookupTable
  import LookupRuns
  import opened LookupManager

  datatype Call =
    | Reserve(additional: nat, draw: uint64)
    | Extend(pairs: seq<Record>, draw: uint64)
    | Finish
    | Abort
    | Create

  /** The builder's table, the published map, and what the views created so far show. */
  datatype ManagerState = ManagerState(
    built: LookupRuns.TableState,
    published: map<Key, seq<byte>>,
    views: seq<map<Key, seq<byte>>>)

  predicate StateOk(s: ManagerState)
  {
    s.built.layout.size > 0
  }

  /** The call to the builder's table, if there is one. */
  function TableCall(c: Call): LookupRuns.Call
  {
    match c
    case Reserve(additional, draw) => LookupRuns.Reserve(additional, draw)
    case Extend(pairs, draw) => LookupRuns.Extend(pairs, draw)
    case _ => LookupRuns.Len
  }

  ghost function Step(s: ManagerState, c: Call): (s': ManagerState)
    requires StateOk(s)
    ensures StateOk(s')
  {
    match c
    case Finish => s.(built := LookupRuns.NEW_TABLE, published := s.built.contents)
    case Abort => s.(built := LookupRuns.NEW_TABLE)
    case Create => s.(views := s.views + [s.published])
    case _ => s.(built := LookupRuns.Step(s.built, TableCall(c)))
  }

  ghost function StepAll(s: ManagerState, cs: seq<Call>): (s': ManagerState)
    requires StateOk(s)
    ensures StateOk(s')
    decreases |cs|
  {
    if cs == [] then s else StepAll(Step(s, cs[0]), cs[1..])
  }

  ghost predicate Room(s: ManagerState, c: Call)
    requires StateOk(s)
  {
    LookupRuns.Room(s.built, TableCall(c))
  }

  ghost predicate Panics(s: ManagerState, c: Call)
    requires StateOk(s)
  {
    LookupRuns.Panics(s.built, TableCall(c))
  }

  ghost predicate RunRoom(s: ManagerState, cs: seq<Call>)
    requires StateOk(s)
    decreases |cs|
  {
    cs == [] || (Room(s, cs[0]) && (Panics(s, cs[0]) || RunRoom(Step(s, cs[0]), cs[1..])))
  }

  ghost predicate RunPanics(s: ManagerState, cs: seq<Call>)
    requires StateOk(s)
    decreases |cs|
  {
    cs != [] && (Panics(s, cs[0]) || RunPanics(Step(s, cs[0]), cs[1..]))
  }

  /** From `s` the calls `rest` lead where all of `cs` lead from `start`. */
  ghost predicate OnTrack(s: ManagerState, rest: seq<Call>, start: ManagerState, cs: seq<Call>)
    requires StateOk(s) && StateOk(start)
  {
    && RunRoom(s, rest) && RunPanics(s, rest) == RunPanics(start, cs)
    && StepAll(s, rest) == StepAll(start, cs)
  }

  lemma TrackStarts(s: ManagerState, cs: seq<Call>)
    requires StateOk(s) && RunRoom(s, cs)
    ensures OnTrack(s, cs[0..], s, cs)
  {
    assert cs[0..] == cs;
  }

  lemma StaysOnTrack(s: ManagerState, i: nat, start: ManagerState, cs: seq<Call>)
    requires StateOk(s) && StateOk(start) && i < |cs| && OnTrack(s, cs[i..], start, cs)
    ensures Room(s, cs[i])
    ensures if Panics(s, cs[i]) then RunPanics(start, cs) else OnTrack(Step(s, cs[i]), cs[i + 1..], start, cs)
  {
    hide Step, Room, Panics;
    assert cs[i..][0] == cs[i] && cs[i..][1..] == cs[i + 1..];
  }

  lemma TrackEnds(s: ManagerState, start: ManagerState, cs: seq<Call>)
    requires StateOk(s) && StateOk(start) && OnTrack(s, [], start, cs)
    ensures !RunPanics(start, cs) && StepAll(start, cs) == s
  {
  }

  /** The views are of tables the manager keeps, and show `shown`. */
  ghost predicate Showing(manager: LookupDataManager, views: seq<LookupData>, shown: seq<map<Key, seq<byte>>>)
    reads manager
  {
    && |views| == |shown|
    && forall i | 0 <= i < |views| :: views[i].data in manager.issued && manager.issued[views[i].data] == shown[i]
  }

  ghost function View(manager: LookupDataManager, shown: seq<map<Key, seq<byte>>>): (s: ManagerState)
    requires manager.Valid()
    reads manager, manager.kept, manager.builder, manager.builder.data, manager.builder.data.dataChunks
    ensures StateOk(s)
  {
    ManagerState(LookupRuns.View(manager.builder.data), manager.issued[manager.data], shown)
  }

  /** Tables published before are still kept, with the same contents. */
  ghost predicate Later(before: map<LookupHtbl, map<Key, seq<byte>>>, now: map<LookupHtbl, map<Key, seq<byte>>>)
  {
    forall t | t in before :: t in now && now[t] == before[t]
  }

  /** One call; `views` are those created so far. */
  method RunCall(manager: LookupDataManager, c: Call, views: seq<LookupData>,
                 ghost shown: seq<map<Key, seq<byte>>>) returns (r: Outcome<seq<LookupData>>)
    requires manager.Valid() && Showing(manager, views, shown) && Room(View(manager, shown), c)
    modifies manager, manager.builder, manager.builder.data.Repr()
    ensures r.Panic? <==> old(Panics(View(manager, shown), c))
    ensures r.Done? ==> manager.Valid() && Later(old(manager.issued), manager.issued)
    ensures r.Done? ==> fresh(manager.builder.data.Repr() - old(manager.builder.data.Repr()))
    ensures r.Done? ==> var s := Step(old(View(manager, shown)), c);
                        View(manager, s.views) == s && Showing(manager, r.value, s.views)
  {
    hide LookupHtbl.Valid, HasRoomForAll, SomeRefused, AfterAll, Merge;
    assert manager.Kept(manager.data);
    match c {
      case Reserve(additional, draw) =>
        var done := manager.Reserve(additional, draw);
        r := if done.Panic? then Panic else Done(views);
      case Extend(pairs, draw) =>
        var done := manager.ExtendNextLookupData(pairs, draw);
        r := if done.Panic? then Panic else Done(views);
      case Finish =>
        manager.FinishNextLookupData();
        r := Done(views);
      case Abort =>
        manager.AbortNextLookupData();
        r := Done(views);
      case Create =>
        var view := manager.CreateLookupData();
        r := Done(views + [view]);
    }
  }

  /**
   Any run of calls, in one thread, on the objects themselves: it panics exactly when a
   call on the builder's table does. At the end every view created during the run still
   shows what was published when it was created, and every table published before the
   run is as it was.
   */
  method RunManager(manager: LookupDataManager, cs: seq<Call>) returns (r: Outcome<seq<LookupData>>)
    requires manager.Valid() && RunRoom(View(manager, []), cs)
    modifies manager, manager.builder, manager.builder.data.Repr()
    ensures r.Panic? <==> old(RunPanics(View(manager, []), cs))
    ensures r.Done? ==> manager.Valid()
    ensures r.Done? ==> var s := StepAll(old(View(manager, [])), cs);
                        && View(manager, s.views) == s && |r.value| == |s.views|
                        && forall i | 0 <= i < |r.value| ::
                             r.value[i].data.Valid() && r.value[i].data.contents == s.views[i]
    ensures r.Done? ==> forall t | t in old(manager.issued) :: t.Valid() && t.contents == old(manager.issued)[t]
  {
    hide LookupHtbl.Valid, LookupDataManager.Valid, Step, Room, Panics, LookupRuns.View, OnTrack, RunRoom, RunPanics,
      StepAll;
    var i, views := 0, [];
    ghost var shown, start := [], View(manager, []);
    TrackStarts(start, cs);
    while i < |cs|
      invariant 0 <= i <= |cs| && manager.Valid() && Showing(manager, views, shown)
      invariant fresh(manager.builder.data.Repr() - old(manager.builder.data.Repr()))
      invariant Later(old(manager.issued), manager.issued)
      invariant OnTrack(View(manager, shown), cs[i..], start, cs)
    {
      ghost var now := View(manager, shown);
      StaysOnTrack(now, i, start, cs);
      var done := RunCall(manager, cs[i], views, shown);
      if done.Panic? {
        return Panic;
      }
      views, shown := done.value, Step(now, cs[i]).views;
      i := i + 1;
    }
    assert cs[i..] == [];
    TrackEnds(View(manager, shown), start, cs);
    forall t | t in manager.issued ensures t.Valid() && t.contents == manager.issued[t] {
      manager.PublishedStays(t);
    }
    return Done(views);
  }
}
