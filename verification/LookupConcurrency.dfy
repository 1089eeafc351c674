/**
 The lookup data manager under concurrency. Any number of threads call it; the builder
 lock, the lock of the published data and every insertion are separate steps. Tables are
 the maps they stand for, but they live on a heap: builder, published data and views refer
 to them by identity, and an insertion changes the table in place for all who refer to it.
 */
module LookupConcurrency {
  import opened Bytes
  import opened Arena
  import opened Probe
  import opened LookupTable

  type Table = map<Key, seq<byte>>
  type Thread = nat
  type Id = nat

  /** A call: insertions under one lock (`insert`, `inserter`, `extend`), or one of the others. */
  datatype Call = Extend(pairs: seq<Record>) | Finish | Abort | Create

  /** Where a thread is inside a call. */
  datatype Point =
    | Idle
    | LockBuilder(call: Call)
    | Inserting(rest: seq<Record>)
    | Building
    | Dropping
    | LockWrite(next: Id)
    | Replacing(next: Id)
    | UnlockWrite
    | UnlockBuilder
    | LockRead
    | Cloning
    | UnlockRead

  /** What a thread did: to the builder's table, to the published data, or by taking a view. */
  datatype Event =
    | Inserted(t: Thread, r: Record)
    | Finished(t: Thread, id: Id)
    | Aborted(t: Thread)
    | Replaced(t: Thread, id: Id)
    | Viewed(t: Thread, id: Id)

  /**
   The tables by identity. `published` are those ever published, oldest first; `data` is
   the current one, `views` are those handed out, and `free` is the next to be allocated.
   */
  datatype Memory = Memory(heap: map<Id, Table>, free: Id, builder: Id, data: Id, published: seq<Id>, views: seq<Id>)

  datatype State = State(
    points: map<Thread, Point>,
    builderLock: Option<Thread>,
    writer: Option<Thread>,
    readers: set<Thread>,
    memory: Memory,
    log: seq<Event>)

  datatype Action = Begin(t: Thread, call: Call) | Step(t: Thread)

  function Initial(): State
  {
    State(map[], None, None, {}, Memory(map[0 := map[], 1 := map[]], 2, 1, 0, [0], []), [])
  }

  /** The table an identity refers to. */
  function TableAt(heap: map<Id, Table>, id: Id): Table
  {
    if id in heap then heap[id] else map[]
  }

  function Tables(heap: map<Id, Table>, ids: seq<Id>): (ts: seq<Table>)
    ensures |ts| == |ids|
  {
    seq(|ids|, i requires 0 <= i < |ids| => TableAt(heap, ids[i]))
  }

  function PointOf(s: State, t: Thread): Point
  {
    if t in s.points then s.points[t] else Idle
  }

  function Move(s: State, t: Thread, p: Point): State
  {
    s.(points := s.points[t := p])
  }

  /** How a step of thread `t` moves it and its locks; `None` when it is blocked or has nothing to do. */
  function Advance(s: State, t: Thread): Option<State>
  {
    match PointOf(s, t)
    case Idle => None
    case LockBuilder(call) =>
      if s.builderLock.Some? then None
      else
        var q := match call { case Extend(pairs) => Inserting(pairs) case Finish => Building case _ => Dropping };
        Some(Move(s, t, q).(builderLock := Some(t)))
    case Inserting(rest) => Some(Move(s, t, if rest == [] then UnlockBuilder else Inserting(rest[1..])))
    case Building => Some(Move(s, t, LockWrite(s.memory.builder)))
    case Dropping => Some(Move(s, t, UnlockBuilder))
    case LockWrite(next) =>
      if s.writer.Some? || s.readers != {} then None
      else Some(Move(s, t, Replacing(next)).(writer := Some(t)))
    case Replacing(_) => Some(Move(s, t, UnlockWrite))
    case UnlockWrite => Some(Move(s, t, UnlockBuilder).(writer := None))
    case UnlockBuilder => Some(Move(s, t, Idle).(builderLock := None))
    case LockRead =>
      if s.writer.Some? then None else Some(Move(s, t, Cloning).(readers := s.readers + {t}))
    case Cloning => Some(Move(s, t, UnlockRead))
    case UnlockRead => Some(Move(s, t, Idle).(readers := s.readers - {t}))
  }

  /**
   What a step from point `p` does to memory: an insertion changes the builder's table
   where it is; building and dropping leave it behind and take a new one; replacing and
   cloning copy a reference.
   */
  function Touch(m: Memory, p: Point): Memory
  {
    match p
    case Inserting(rest) =>
      if rest == [] then m
      else m.(heap := m.heap[m.builder := TableAt(m.heap, m.builder)[rest[0].key := rest[0].value]])
    case Building => m.(heap := m.heap[m.free := map[]], builder := m.free, free := m.free + 1)
    case Dropping => m.(heap := m.heap[m.free := map[]], builder := m.free, free := m.free + 1)
    case Replacing(next) => m.(published := m.published + [next], data := next)
    case Cloning => m.(views := m.views + [m.data])
    case _ => m
  }

  /** What a step of thread `t` from point `p` is recorded as. */
  function Noted(m: Memory, t: Thread, p: Point): seq<Event>
  {
    match p
    case Inserting(rest) => if rest == [] then [] else [Inserted(t, rest[0])]
    case Building => [Finished(t, m.builder)]
    case Dropping => [Aborted(t)]
    case Replacing(next) => [Replaced(t, next)]
    case Cloning => [Viewed(t, m.data)]
    case _ => []
  }

  /** One atomic step of one thread. */
  function Next(s: State, a: Action): Option<State>
  {
    var p := PointOf(s, a.t);
    match a
    case Begin(t, call) =>
      if p != Idle then None else Some(Move(s, t, if call == Create then LockRead else LockBuilder(call)))
    case Step(t) =>
      var moved := Advance(s, t);
      if moved.None? then None
      else Some(moved.value.(memory := Touch(s.memory, p), log := s.log + Noted(s.memory, t, p)))
  }

  /** The insertions since the last finish or abort. */
  function Pending(log: seq<Event>): seq<Record>
  {
    if log == [] then []
    else
      var last, before := log[|log| - 1], log[..|log| - 1];
      match last
      case Inserted(_, r) => Pending(before) + [r]
      case Finished(_, _) => []
      case Aborted(_) => []
      case _ => Pending(before)
  }

  /** What each finish in the log should publish: the insertions since the finish or abort before. */
  ghost function Published(log: seq<Event>): seq<Table>
  {
    if log == [] then []
    else
      var last, before := log[|log| - 1], log[..|log| - 1];
      if last.Finished? then Published(before) + [Merge(map[], Pending(before))] else Published(before)
  }

  /** The tables published and the views taken, as the log has them. */
  function Replacements(log: seq<Event>): seq<Id>
  {
    if log == [] then []
    else
      var last, before := log[|log| - 1], log[..|log| - 1];
      Replacements(before) + if last.Replaced? then [last.id] else []
  }

  function ViewsTaken(log: seq<Event>): seq<Id>
  {
    if log == [] then []
    else
      var last, before := log[|log| - 1], log[..|log| - 1];
      ViewsTaken(before) + if last.Viewed? then [last.id] else []
  }

  /** The table published last; the first one is there from the start. */
  function Latest(log: seq<Event>): Id
  {
    var all := [0] + Replacements(log);
    all[|all| - 1]
  }

  predicate HoldsBuilder(p: Point)
  {
    p.Inserting? || p.Building? || p.Dropping? || p.LockWrite? || p.Replacing? || p.UnlockWrite? || p.UnlockBuilder?
  }

  predicate HoldsWrite(p: Point)
  {
    p.Replacing? || p.UnlockWrite?
  }

  predicate HoldsRead(p: Point)
  {
    p.Cloning? || p.UnlockRead?
  }

  /** The table taken from the builder and not yet published, by the holder of the builder lock. */
  function InTransit(s: State): seq<Id>
  {
    if s.builderLock.None? then [] else Carried(PointOf(s, s.builderLock.value))
  }

  function Carried(p: Point): seq<Id>
  {
    if p.LockWrite? || p.Replacing? then [p.next] else []
  }

  ghost predicate LocksOk(s: State)
  {
    && (forall t: Thread :: HoldsBuilder(PointOf(s, t)) <==> s.builderLock == Some(t))
    && (forall t: Thread :: HoldsWrite(PointOf(s, t)) <==> s.writer == Some(t))
    && (forall t: Thread :: HoldsRead(PointOf(s, t)) <==> t in s.readers)
    && (s.writer.Some? ==> s.readers == {})
  }

  /** Everything referred to is allocated, and nobody but the builder refers to the builder's table. */
  ghost predicate Apart(m: Memory, transit: seq<Id>)
  {
    && (forall id | id in m.heap :: id < m.free)
    && m.builder in m.heap && m.builder !in m.published && m.builder !in transit
    && (forall id | id in m.published :: id in m.heap)
    && (forall id | id in transit :: id in m.heap && id !in m.published)
    && m.published != [] && m.data == m.published[|m.published| - 1]
    && (forall v | v in m.views :: v in m.published)
  }

  /** The tables hold what the log says was inserted. */
  ghost predicate DataOk(m: Memory, transit: seq<Id>, log: seq<Event>)
  {
    && TableAt(m.heap, m.builder) == Merge(map[], Pending(log))
    && Tables(m.heap, m.published + transit) == [map[]] + Published(log)
  }

  /** Memory is what the log says was published and handed out. */
  ghost predicate HistoryOk(m: Memory, log: seq<Event>)
  {
    && m.published == [0] + Replacements(log)
    && m.views == ViewsTaken(log)
    && (forall k | 0 <= k < |log| && log[k].Finished? :: FinishedOk(m, log, k))
    && (forall k | 0 <= k < |log| && log[k].Viewed? :: log[k].id == Latest(log[..k]))
  }

  /** A finished table holds what was pending when it was finished, and is not inserted into again. */
  ghost predicate FinishedOk(m: Memory, log: seq<Event>, k: nat)
    requires k < |log| && log[k].Finished?
  {
    && log[k].id in m.heap && log[k].id != m.builder
    && TableAt(m.heap, log[k].id) == Merge(map[], Pending(log[..k]))
  }

  ghost predicate Inv(s: State)
  {
    && LocksOk(s) && Apart(s.memory, InTransit(s)) && DataOk(s.memory, InTransit(s), s.log)
    && HistoryOk(s.memory, s.log)
  }

  lemma BuilderLockKept(s: State, a: Action, t: Thread)
    requires LocksOk(s) && Next(s, a).Some?
    ensures HoldsBuilder(PointOf(Next(s, a).value, t)) <==> Next(s, a).value.builderLock == Some(t)
  {
    hide Touch, Noted, HoldsWrite, HoldsRead;
    assert HoldsBuilder(PointOf(s, t)) <==> s.builderLock == Some(t);
    assert HoldsBuilder(PointOf(s, a.t)) <==> s.builderLock == Some(a.t);
  }

  lemma WriterKept(s: State, a: Action, t: Thread)
    requires LocksOk(s) && Next(s, a).Some?
    ensures HoldsWrite(PointOf(Next(s, a).value, t)) <==> Next(s, a).value.writer == Some(t)
  {
    hide Touch, Noted, HoldsBuilder, HoldsRead;
    assert HoldsWrite(PointOf(s, t)) <==> s.writer == Some(t);
    assert HoldsWrite(PointOf(s, a.t)) <==> s.writer == Some(a.t);
  }

  lemma ReadersKept(s: State, a: Action, t: Thread)
    requires LocksOk(s) && Next(s, a).Some?
    ensures HoldsRead(PointOf(Next(s, a).value, t)) <==> t in Next(s, a).value.readers
    ensures Next(s, a).value.writer.Some? ==> Next(s, a).value.readers == {}
  {
    hide Touch, Noted, HoldsBuilder, HoldsWrite;
    assert HoldsRead(PointOf(s, t)) <==> t in s.readers;
    assert HoldsRead(PointOf(s, a.t)) <==> a.t in s.readers;
  }

  lemma LocksKept(s: State, a: Action)
    requires LocksOk(s) && Next(s, a).Some?
    ensures LocksOk(Next(s, a).value)
  {
    hide Next, HoldsBuilder, HoldsWrite, HoldsRead, PointOf;
    forall t: Thread
      ensures HoldsBuilder(PointOf(Next(s, a).value, t)) <==> Next(s, a).value.builderLock == Some(t)
      ensures HoldsWrite(PointOf(Next(s, a).value, t)) <==> Next(s, a).value.writer == Some(t)
      ensures HoldsRead(PointOf(Next(s, a).value, t)) <==> t in Next(s, a).value.readers
    {
      BuilderLockKept(s, a, t);
      WriterKept(s, a, t);
      ReadersKept(s, a, t);
    }
    ReadersKept(s, a, a.t);
  }

  /** What is in transit after a step from point `p`. */
  function TransitAfter(m: Memory, p: Point, transit: seq<Id>): seq<Id>
  {
    if p.Building? then [m.builder] else if p.Replacing? then [] else transit
  }

  lemma TransitKept(s: State, t: Thread)
    requires LocksOk(s) && Next(s, Step(t)).Some?
    ensures InTransit(Next(s, Step(t)).value) == TransitAfter(s.memory, PointOf(s, t), InTransit(s))
    ensures PointOf(s, t).Replacing? ==> InTransit(s) == [PointOf(s, t).next]
    ensures PointOf(s, t).Building? ==> InTransit(s) == []
  {
    hide Touch, Noted;
    var p := PointOf(s, t);
    assert HoldsBuilder(p) <==> s.builderLock == Some(t);
    assert p.LockBuilder? ==> s.builderLock.None?;
  }

  lemma {:induction false} MergeOneMore(m: Table, rs: seq<Record>, r: Record)
    ensures Merge(m, rs + [r]) == Merge(m, rs)[r.key := r.value]
    decreases |rs|
  {
    if rs == [] {
      assert [r][1..] == [];
      assert rs + [r] == [r];
    } else {
      assert (rs + [r])[1..] == rs[1..] + [r];
      MergeOneMore(m[rs[0].key := rs[0].value], rs[1..], r);
    }
  }

  lemma MergeNone(m: Table)
    ensures Merge(m, []) == m
  {
  }

  lemma Logged(log: seq<Event>, e: Event)
    ensures Pending(log + [e]) == if e.Inserted? then Pending(log) + [e.r]
                                  else if e.Finished? || e.Aborted? then [] else Pending(log)
    ensures Published(log + [e]) ==
            if e.Finished? then Published(log) + [Merge(map[], Pending(log))] else Published(log)
    ensures Replacements(log + [e]) == Replacements(log) + if e.Replaced? then [e.id] else []
    ensures ViewsTaken(log + [e]) == ViewsTaken(log) + if e.Viewed? then [e.id] else []
  {
    var more := log + [e];
    assert more[..|more| - 1] == log;
  }

  lemma ApartKept(m: Memory, p: Point, transit: seq<Id>)
    requires Apart(m, transit) && (p.Replacing? ==> transit == [p.next])
    ensures Apart(Touch(m, p), TransitAfter(m, p, transit))
  {
    hide TableAt;
  }

  /** A step changes no table that has been published or is about to be. */
  lemma OthersUntouched(m: Memory, p: Point, transit: seq<Id>, id: Id)
    requires Apart(m, transit) && (id in m.published || id in transit)
    ensures TableAt(Touch(m, p).heap, id) == TableAt(m.heap, id)
  {
  }

  lemma TablesUntouched(m: Memory, p: Point, transit: seq<Id>)
    requires Apart(m, transit)
    ensures Tables(Touch(m, p).heap, m.published + transit) == Tables(m.heap, m.published + transit)
  {
    hide Apart, Touch;
    var ids := m.published + transit;
    forall i | 0 <= i < |ids| ensures TableAt(Touch(m, p).heap, ids[i]) == TableAt(m.heap, ids[i]) {
      assert ids[i] in m.published || ids[i] in transit;
      OthersUntouched(m, p, transit, ids[i]);
    }
  }

  lemma TablesOneMore(heap: map<Id, Table>, ids: seq<Id>, id: Id)
    ensures Tables(heap, ids + [id]) == Tables(heap, ids) + [TableAt(heap, id)]
  {
  }

  lemma DataKept(m: Memory, t: Thread, p: Point, transit: seq<Id>, log: seq<Event>)
    requires Apart(m, transit) && DataOk(m, transit, log)
    requires (p.Replacing? ==> transit == [p.next]) && (p.Building? ==> transit == [])
    ensures DataOk(Touch(m, p), TransitAfter(m, p, transit), log + Noted(m, t, p))
  {
    hide Merge, Pending, Published, Tables, Replacements, ViewsTaken;
    MergeNone(map[]);
    TablesUntouched(m, p, transit);
    if Noted(m, t, p) == [] {
      assert log + [] == log;
    } else {
      Logged(log, Noted(m, t, p)[0]);
    }
    match p
    case Inserting(rest) =>
      if rest != [] { MergeOneMore(map[], Pending(log), rest[0]); }
    case Building =>
      assert m.published + [] == m.published;
      TablesOneMore(Touch(m, p).heap, m.published, m.builder);
    case Replacing(next) =>
      assert m.published + [next] + [] == m.published + [next];
    case _ =>
  }

  lemma HistoryKept(m: Memory, t: Thread, p: Point, transit: seq<Id>, log: seq<Event>)
    requires Apart(m, transit) && DataOk(m, transit, log) && HistoryOk(m, log)
    ensures HistoryOk(Touch(m, p), log + Noted(m, t, p))
  {
    hide Merge, Pending, Published, Tables, Replacements, ViewsTaken;
    var m', e := Touch(m, p), Noted(m, t, p);
    var log' := log + e;
    if e == [] {
      assert log' == log;
    } else {
      Logged(log, e[0]);
    }
    forall k | 0 <= k < |log'| && log'[k].Finished? ensures FinishedOk(m', log', k) {
      assert log'[..k] == log[..k];
      if k < |log| { assert FinishedOk(m, log, k); }
    }
    forall k | 0 <= k < |log'| && log'[k].Viewed? ensures log'[k].id == Latest(log'[..k]) {
      assert log'[..k] == log[..k];
      if k == |log| { assert log[..k] == log; }
    }
  }

  lemma InvKept(s: State, a: Action)
    requires Inv(s) && Next(s, a).Some?
    ensures Inv(Next(s, a).value)
  {
    hide LocksOk, Apart, DataOk, HistoryOk, Touch, Advance, Noted;
    LocksKept(s, a);
    match a
    case Begin(t, _) =>
      BeginKeepsTransit(s, a);
    case Step(t) =>
      TransitKept(s, t);
      ApartKept(s.memory, PointOf(s, t), InTransit(s));
      DataKept(s.memory, t, PointOf(s, t), InTransit(s), s.log);
      HistoryKept(s.memory, t, PointOf(s, t), InTransit(s), s.log);
  }

  lemma BeginKeepsTransit(s: State, a: Action)
    requires LocksOk(s) && a.Begin? && Next(s, a).Some?
    ensures InTransit(Next(s, a).value) == InTransit(s)
  {
    assert HoldsBuilder(PointOf(s, a.t)) <==> s.builderLock == Some(a.t);
  }

  /** The states a run goes through; a blocked or meaningless action ends it. */
  ghost predicate Run(states: seq<State>, actions: seq<Action>)
  {
    && |states| == |actions| + 1
    && states[0] == Initial()
    && (forall i | 0 <= i < |actions| :: Next(states[i], actions[i]) == Some(states[i + 1]))
  }

  /** The invariant holds in every state of every run. */
  lemma {:induction false} AlwaysInv(states: seq<State>, actions: seq<Action>, i: nat)
    requires Run(states, actions) && i < |states|
    ensures Inv(states[i])
  {
    hide Next, Inv;
    if i == 0 {
      InitiallyInv();
    } else {
      AlwaysInv(states, actions, i - 1);
      assert Next(states[i - 1], actions[i - 1]) == Some(states[i - 1 + 1]);
      InvKept(states[i - 1], actions[i - 1]);
    }
  }

  lemma InitiallyInv()
    ensures Inv(Initial())
  {
    assert Merge(map[], []) == map[];
  }

  /** Nobody who can read a table can reach the one that insertions change. */
  lemma BuilderApart(states: seq<State>, actions: seq<Action>, i: nat)
    requires Run(states, actions) && i < |states|
    ensures var m := states[i].memory;
            && m.builder != m.data && m.builder !in m.published && m.builder !in m.views
            && m.builder !in InTransit(states[i])
  {
    hide Next, LocksOk, DataOk, HistoryOk, InTransit;
    AlwaysInv(states, actions, i);
  }

  /** The second memory has all that was published and handed out in the first, unchanged. */
  ghost predicate Keeps(m: Memory, m': Memory)
  {
    && m.published <= m'.published && m.views <= m'.views
    && forall id | id in m.published :: TableAt(m'.heap, id) == TableAt(m.heap, id)
  }

  lemma StepKeeps(s: State, a: Action)
    requires Inv(s) && Next(s, a).Some?
    ensures Keeps(s.memory, Next(s, a).value.memory)
  {
    hide LocksOk, DataOk, HistoryOk, Apart, InTransit, Advance, Noted, TableAt;
    if a.Step? {
      var p := PointOf(s, a.t);
      forall id | id in s.memory.published
        ensures TableAt(Touch(s.memory, p).heap, id) == TableAt(s.memory.heap, id)
      {
        OthersUntouched(s.memory, p, InTransit(s), id);
      }
    }
  }

  /**
   A table once published is never changed, and a view once handed out keeps its table,
   whatever all threads do afterwards, although every insertion works in place.
   */
  lemma {:induction false} ViewsNeverChange(states: seq<State>, actions: seq<Action>, i: nat, j: nat)
    requires Run(states, actions) && i <= j < |states|
    ensures Keeps(states[i].memory, states[j].memory)
    ensures forall v | v in states[i].memory.views ::
              TableAt(states[j].memory.heap, v) == TableAt(states[i].memory.heap, v)
    decreases j - i
  {
    hide Next, LocksOk, DataOk, HistoryOk, InTransit, TableAt;
    AlwaysInv(states, actions, i);
    if i == j {
    } else {
      ViewsNeverChange(states, actions, i, j - 1);
      AlwaysInv(states, actions, j - 1);
      assert Next(states[j - 1], actions[j - 1]) == Some(states[j - 1 + 1]);
      StepKeeps(states[j - 1], actions[j - 1]);
    }
  }

  /**
   The n-th table ever published is exactly what was inserted between the n-th finish
   and the finish or abort before it, last insertion of a key winning.
   */
  lemma PublishedExactly(states: seq<State>, actions: seq<Action>, i: nat, n: nat)
    requires Run(states, actions) && i < |states| && 0 < n < |states[i].memory.published|
    ensures n <= |Published(states[i].log)|
    ensures var m := states[i].memory; TableAt(m.heap, m.published[n]) == Published(states[i].log)[n - 1]
  {
    hide Next, LocksOk, HistoryOk, InTransit, Apart;
    AlwaysInv(states, actions, i);
    var m, transit := states[i].memory, InTransit(states[i]);
    assert Tables(m.heap, m.published + transit)[n] == TableAt(m.heap, m.published[n]);
  }

  /** A view created after a table was published shows that table or a later one. */
  lemma ViewsAreCurrent(states: seq<State>, actions: seq<Action>, i: nat, j: nat) returns (k: nat)
    requires Run(states, actions) && i <= j < |actions|
    requires actions[j].Step? && PointOf(states[j], actions[j].t).Cloning?
    ensures |states[i].memory.published| - 1 <= k < |states[j].memory.published|
    ensures states[j + 1].memory.views == states[j].memory.views + [states[j].memory.published[k]]
  {
    hide Advance, LocksOk, DataOk, HistoryOk, InTransit, TableAt;
    AlwaysInv(states, actions, j);
    ViewsNeverChange(states, actions, i, j);
    k := |states[j].memory.published| - 1;
    assert Next(states[j], actions[j]) == Some(states[j + 1]);
  }

  /** Nobody holds a lock while waiting for the builder lock: no cycle of locks can form. */
  lemma LockOrder(states: seq<State>, actions: seq<Action>, i: nat, t: Thread)
    requires Run(states, actions) && i < |states|
    requires PointOf(states[i], t).LockBuilder? || PointOf(states[i], t).LockRead?
    ensures states[i].builderLock != Some(t) && states[i].writer != Some(t) && t !in states[i].readers
  {
    AlwaysInv(states, actions, i);
  }

  /** No run ever blocks: while some thread is inside a call, some thread can take a step. */
  lemma NeverBlocked(states: seq<State>, actions: seq<Action>, i: nat, t: Thread) returns (u: Thread)
    requires Run(states, actions) && i < |states| && PointOf(states[i], t) != Idle
    ensures PointOf(states[i], u) != Idle && Next(states[i], Step(u)).Some?
  {
    AlwaysInv(states, actions, i);
    var s := states[i];
    u := t;
    if PointOf(s, u).LockBuilder? && s.builderLock.Some? {
      u := s.builderLock.value;
      assert HoldsBuilder(PointOf(s, u));
    }
    if (PointOf(s, u).LockWrite? || PointOf(s, u).LockRead?) && s.writer.Some? {
      u := s.writer.value;
      assert HoldsWrite(PointOf(s, u));
    } else if PointOf(s, u).LockWrite? && s.readers != {} {
      u :| u in s.readers;
      assert HoldsRead(PointOf(s, u));
    }
  }

  /** A thread takes steps only inside a call, and begins a call only outside of one. */
  lemma OnlyInsideCalls(s: State, a: Action)
    requires Next(s, a).Some?
    ensures a.Step? <==> PointOf(s, a.t) != Idle
  {
    hide Touch, Noted;
  }

  /** How many steps a thread has left in its call. */
  function StepsLeft(p: Point): nat
  {
    match p
    case Idle => 0
    case LockBuilder(call) => if call.Extend? then 3 + |call.pairs| else 7
    case Inserting(rest) => 2 + |rest|
    case Building => 5
    case Dropping => 2
    case LockWrite(_) => 4
    case Replacing(_) => 3
    case UnlockWrite => 2
    case UnlockBuilder => 1
    case LockRead => 3
    case Cloning => 2
    case UnlockRead => 1
  }

  /** Every step brings its thread closer to the end of its call and moves no other. */
  lemma StepsCountDown(s: State, t: Thread)
    requires Next(s, Step(t)).Some?
    ensures StepsLeft(PointOf(Next(s, Step(t)).value, t)) < StepsLeft(PointOf(s, t))
    ensures forall u: Thread | u != t :: PointOf(Next(s, Step(t)).value, u) == PointOf(s, u)
  {
    hide Touch, Noted;
    var p := PointOf(s, t);
    if p.Inserting? && p.rest != [] { assert |p.rest[1..]| < |p.rest|; }
  }
}
