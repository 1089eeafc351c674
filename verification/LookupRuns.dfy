/** Whole runs of the lookup table: any sequence of calls answers as a plain map would. */
module LookupRuns {
  import opened Bytes
  import opened Arena
  import opened Probe
  import opened LookupTable

  datatype Call =
    | Reserve(max: nat, draw: uint64)
    | Insert(r: Record, draw: uint64)
    | Extend(pairs: seq<Record>, draw: uint64)
    | Get(key: Key)
    | ContainsKey(key: Key)
    | Len

  datatype Answer = Nothing | Value(value: Option<seq<byte>>) | Flag(found: bool) | Count(n: nat)

  /**
   A table as its callers see it: the map, whether nothing has been allocated yet, and
   where the next record goes.
   */
  datatype TableState = TableState(contents: map<Key, seq<byte>>, bare: bool, layout: Layout)

  /** A table on which nothing has been called. */
  const NEW_TABLE := TableState(map[], true, Layout(0, MIN_CHUNK_SIZE, 1))

  ghost function View(h: LookupHtbl): (s: TableState)
    requires h.Valid()
    reads h, h.dataChunks
    ensures s.layout.size >= MIN_CHUNK_SIZE
  {
    TableState(h.contents, h.table == [], h.NextLayout())
  }

  ghost function Find(m: map<Key, seq<byte>>, key: Key): Option<seq<byte>>
  {
    if key in m then Some(m[key]) else None
  }

  /** The layout after room for `max` entries has been reserved. */
  function ReservedLayout(max: nat): (l: Layout)
    ensures l.size > 0
  {
    Layout(0, if max == 0 then MIN_CHUNK_SIZE else Pow2(CeilLog2(Allocated(max), 21)), 1)
  }

  /** What a call does to the state when it does not panic. */
  ghost function Step(s: TableState, c: Call): (s': TableState)
    requires s.layout.size > 0
    ensures s'.layout.size > 0
  {
    match c
    case Reserve(max, _) => if s.contents == map[] then TableState(map[], max == 0, ReservedLayout(max)) else s
    case Insert(r, _) => TableState(s.contents[r.key := r.value], false, After(s.layout, r))
    case Extend(pairs, _) =>
      AfterAllSize(s.layout, pairs);
      TableState(Merge(s.contents, pairs), s.bare && pairs == [], AfterAll(s.layout, pairs))
    case _ => s
  }

  lemma {:induction false} AfterAllSize(l: Layout, rs: seq<Record>)
    requires l.size > 0
    ensures AfterAll(l, rs).size == l.size
    decreases |rs|
  {
    hide After;
    if rs == [] {
    } else {
      AfterAllSize(After(l, rs[0]), rs[1..]);
    }
  }

  /** What a call answers. */
  ghost function Expected(m: map<Key, seq<byte>>, c: Call): Answer
  {
    match c
    case Insert(r, _) => Value(Find(m, r.key))
    case Get(key) => Value(Find(m, key))
    case ContainsKey(key) => Flag(key in m)
    case Len => Count(|m|)
    case _ => Nothing
  }

  /** The documented limits: lengths below 1 GiB, data indices below 1 TiB. */
  ghost predicate Room(s: TableState, c: Call)
    requires s.layout.size > 0
  {
    match c
    case Insert(r, _) => HasRoom(s.layout, r)
    case Extend(pairs, _) => HasRoomForAll(s.layout, pairs)
    case _ => true
  }

  /** Exactly when a call panics. */
  ghost predicate Panics(s: TableState, c: Call)
    requires s.layout.size > 0
  {
    match c
    case Reserve(max, draw) => s.contents == map[] && (Overflows(max) || draw == 0)
    case Insert(r, draw) => (s.bare && draw == 0) || Refused(s.layout, r)
    case Extend(pairs, draw) => (s.bare && pairs != [] && draw == 0) || SomeRefused(s.layout, pairs)
    case _ => false
  }

  ghost function StepAll(s: TableState, cs: seq<Call>): (s': TableState)
    requires s.layout.size > 0
    ensures s'.layout.size > 0
    decreases |cs|
  {
    if cs == [] then s else StepAll(Step(s, cs[0]), cs[1..])
  }

  ghost function ExpectedAll(s: TableState, cs: seq<Call>): seq<Answer>
    requires s.layout.size > 0
    decreases |cs|
  {
    if cs == [] then [] else [Expected(s.contents, cs[0])] + ExpectedAll(Step(s, cs[0]), cs[1..])
  }

  /** Every call up to the first panic is within the documented limits. */
  ghost predicate RunRoom(s: TableState, cs: seq<Call>)
    requires s.layout.size > 0
    decreases |cs|
  {
    cs == [] || (Room(s, cs[0]) && (Panics(s, cs[0]) || RunRoom(Step(s, cs[0]), cs[1..])))
  }

  ghost predicate RunPanics(s: TableState, cs: seq<Call>)
    requires s.layout.size > 0
    decreases |cs|
  {
    cs != [] && (Panics(s, cs[0]) || RunPanics(Step(s, cs[0]), cs[1..]))
  }

  /** One call does to the table what `Step` says, answers as the map does, and panics exactly when stated. */
  method RunCall(h: LookupHtbl, c: Call) returns (r: Outcome<Answer>)
    requires h.Valid() && Room(View(h), c)
    modifies h.Repr()
    ensures r.Panic? <==> Panics(old(View(h)), c)
    ensures r.Done? ==> h.Valid() && fresh(h.Repr() - old(h.Repr()))
    ensures r.Done? ==> View(h) == Step(old(View(h)), c) && r.value == Expected(old(h.contents), c)
  {
    hide LookupHtbl.Loaded, Merge, HasRoom, HasRoomForAll, SomeRefused, Refused, After, AfterAll,
      CeilLog2, Pow2;
    match c {
      case Reserve(max, draw) =>
        var done := h.Reserve(max, draw);
        r := if done.Panic? then Panic else Done(Nothing);
      case Insert(record, draw) =>
        var done := h.Insert(record.key, record.value, draw);
        r := if done.Panic? then Panic else Done(Value(done.value));
      case Extend(pairs, draw) =>
        var done := h.Extend(pairs, draw);
        r := if done.Panic? then Panic else Done(Nothing);
      case Get(key) =>
        var value := h.Get(key);
        r := Done(Value(value));
      case ContainsKey(key) =>
        var found := h.ContainsKey(key);
        r := Done(Flag(found));
      case Len =>
        var n := h.Len();
        r := Done(Count(n));
    }
  }

  /**
   Any run of calls, from any valid table: it panics exactly when `RunPanics` says, and
   otherwise every answer is the plain map's and the table is where `StepAll` says.
   */
  method RunCalls(h: LookupHtbl, cs: seq<Call>) returns (r: Outcome<seq<Answer>>)
    requires h.Valid() && RunRoom(View(h), cs)
    modifies h.Repr()
    ensures r.Panic? <==> RunPanics(old(View(h)), cs)
    ensures r.Done? ==> h.Valid() && View(h) == StepAll(old(View(h)), cs)
    ensures r.Done? ==> r.value == ExpectedAll(old(View(h)), cs)
  {
    hide LookupHtbl.Valid, Step, Expected, Room, Panics, LookupHtbl.NextLayout;
    var i, answers := 0, [];
    ghost var start := View(h);
    while i < |cs|
      invariant 0 <= i <= |cs| && h.Valid() && fresh(h.Repr() - old(h.Repr()))
      invariant RunRoom(View(h), cs[i..])
      invariant RunPanics(View(h), cs[i..]) == RunPanics(start, cs)
      invariant StepAll(View(h), cs[i..]) == StepAll(start, cs)
      invariant answers + ExpectedAll(View(h), cs[i..]) == ExpectedAll(start, cs)
    {
      assert cs[i..][0] == cs[i] && cs[i..][1..] == cs[i + 1..];
      var answer := RunCall(h, cs[i]);
      if answer.Panic? {
        return Panic;
      }
      answers := answers + [answer.value];
      i := i + 1;
    }
    assert cs[i..] == [];
    return Done(answers);
  }

  /** A call that can panic at all: an overflow, a zero random draw, or a record as large as a chunk. */
  predicate MayPanic(c: Call)
  {
    match c
    case Reserve(max, draw) => Overflows(max) || draw == 0
    case Insert(r, draw) => draw == 0 || Additional(r) >= MIN_CHUNK_SIZE - 1
    case Extend(pairs, draw) => draw == 0 || exists r | r in pairs :: Additional(r) >= MIN_CHUNK_SIZE - 1
    case _ => false
  }

  lemma RefusedOnlyLarge(l: Layout, rs: seq<Record>)
    requires l.size >= MIN_CHUNK_SIZE && SomeRefused(l, rs)
    ensures exists r | r in rs :: Additional(r) >= MIN_CHUNK_SIZE - 1
  {
    hide SomeRefused;
    RefusedExactly(l, rs);
    if i :| 0 <= i < |rs| && Additional(rs[i]) >= l.size {
      assert rs[i] in rs;
    } else {
      assert rs[0] in rs;
    }
  }

  lemma StepKeepsMinimum(s: TableState, c: Call)
    requires s.layout.size >= MIN_CHUNK_SIZE
    ensures Step(s, c).layout.size >= MIN_CHUNK_SIZE
  {
    hide CeilLog2, Pow2, Merge, AfterAll, Allocated;
    match c
    case Reserve(max, _) => MinChunk(CeilLog2(Allocated(max), 21));
    case Extend(pairs, _) => AfterAllSize(s.layout, pairs);
    case _ =>
  }

  /** Whatever the history, a run of calls none of which can panic by itself does not panic. */
  lemma {:induction false} PanicsOnlyWhereItMay(s: TableState, cs: seq<Call>)
    requires s.layout.size >= MIN_CHUNK_SIZE && RunPanics(s, cs)
    ensures exists c | c in cs :: MayPanic(c)
    decreases |cs|
  {
    hide SomeRefused, Step;
    if Panics(s, cs[0]) {
      if cs[0].Extend? && SomeRefused(s.layout, cs[0].pairs) { RefusedOnlyLarge(s.layout, cs[0].pairs); }
      assert cs[0] in cs && MayPanic(cs[0]);
    } else {
      StepKeepsMinimum(s, cs[0]);
      PanicsOnlyWhereItMay(Step(s, cs[0]), cs[1..]);
      var c :| c in cs[1..] && MayPanic(c);
      assert c in cs;
    }
  }
}
