/**
 The cell that is initialized once, under concurrency: any number of threads get and set
 it; every atomic load and store, the lock and the write of the value are separate steps.
 */
module OnceCell {
  import opened Bytes

  type Thread = nat

  /** Where a thread is inside `get` or `set`. */
  datatype Point<T> =
    | Idle
    | GetLoad
    | GetRead
    | SetLoad(v: T)
    | SetLock(v: T)
    | SetRecheck(v: T)
    | SetWrite(v: T)
    | SetStore(v: T)
    | UnlockWon
    | UnlockLost(v: T)
    | Lost(v: T)

  /** What a call of a thread returned. `GotGarbage` is a read of a value that was never written. */
  datatype Event<T> =
    | GotNone(t: Thread)
    | GotSome(t: Thread, v: T)
    | GotGarbage(t: Thread)
    | SetOk(t: Thread, argument: T)
    | SetErr(t: Thread, argument: T, returned: T)

  datatype State<T> = State(
    initialized: bool,
    lock: Option<Thread>,
    value: Option<T>,
    points: map<Thread, Point<T>>,
    arguments: map<Thread, T>,
    log: seq<Event<T>>)

  datatype Action<T> = BeginGet(t: Thread) | BeginSet(t: Thread, v: T) | Step(t: Thread)

  ghost function Initial<T>(): State<T>
  {
    State(false, None, None, map[], map[], [])
  }

  ghost function PointOf<T>(s: State<T>, t: Thread): Point<T>
  {
    if t in s.points then s.points[t] else Idle
  }

  ghost function Move<T>(s: State<T>, t: Thread, p: Point<T>): State<T>
  {
    s.(points := s.points[t := p])
  }

  ghost function Return<T>(s: State<T>, t: Thread, e: Event<T>): State<T>
  {
    s.(points := s.points[t := Idle], log := s.log + [e])
  }

  /** One atomic step of one thread; `None` when it is blocked or has nothing to do. */
  ghost function Next<T>(s: State<T>, a: Action<T>): Option<State<T>>
  {
    var t, p := a.t, PointOf(s, a.t);
    match a
    case BeginGet(_) => if p == Idle then Some(Move(s, t, GetLoad)) else None
    case BeginSet(_, v) =>
      if p == Idle then Some(Move(s, t, SetLoad(v)).(arguments := s.arguments[t := v])) else None
    case Step(_) =>
      match p
      case Idle => None
      case GetLoad => Some(if s.initialized then Move(s, t, GetRead) else Return(s, t, GotNone(t)))
      case GetRead => Some(Return(s, t, if s.value.Some? then GotSome(t, s.value.value) else GotGarbage(t)))
      case SetLoad(v) => Some(Move(s, t, if s.initialized then Lost(v) else SetLock(v)))
      case SetLock(v) => if s.lock.Some? then None else Some(Move(s, t, SetRecheck(v)).(lock := Some(t)))
      case SetRecheck(v) => Some(Move(s, t, if s.initialized then UnlockLost(v) else SetWrite(v)))
      case SetWrite(v) => Some(Move(s, t, SetStore(v)).(value := Some(v)))
      case SetStore(v) => Some(Move(s, t, UnlockWon).(initialized := true))
      case UnlockWon =>
        if t !in s.arguments then None else Some(Return(s, t, SetOk(t, s.arguments[t])).(lock := None))
      case UnlockLost(v) => Some(Move(s, t, Lost(v)).(lock := None))
      case Lost(v) => if t !in s.arguments then None else Some(Return(s, t, SetErr(t, s.arguments[t], v)))
  }

  predicate HoldsLock<T>(p: Point<T>)
  {
    p.SetRecheck? || p.SetWrite? || p.SetStore? || p.UnlockWon? || p.UnlockLost?
  }

  predicate InSet<T>(p: Point<T>)
  {
    p.SetLoad? || p.SetLock? || p.Lost? || HoldsLock(p)
  }

  /** What a thread's point says about the cell and about its own argument. */
  ghost predicate PointOk<T>(s: State<T>, t: Thread)
  {
    var p := PointOf(s, t);
    && (HoldsLock(p) <==> s.lock == Some(t))
    && (InSet(p) ==> t in s.arguments)
    && (p.SetLoad? || p.SetLock? || p.SetRecheck? || p.SetWrite? || p.SetStore? || p.UnlockLost? || p.Lost? ==>
          p.v == s.arguments[t])
    && (p.SetWrite? ==> !s.initialized)
    && (p.SetStore? ==> !s.initialized && s.value == Some(p.v))
    && (p.UnlockWon? ==> s.initialized && s.value == Some(s.arguments[t]))
    && (p.UnlockLost? || p.Lost? || p.GetRead? ==> s.initialized)
  }

  ghost predicate EventOk<T>(s: State<T>, e: Event<T>)
  {
    match e
    case GotNone(_) => true
    case GotSome(_, v) => s.initialized && s.value == Some(v)
    case GotGarbage(_) => false
    case SetOk(_, v) => s.initialized && s.value == Some(v)
    case SetErr(_, argument, returned) => s.initialized && argument == returned
  }

  ghost predicate PointsOk<T>(s: State<T>)
  {
    (forall t: Thread :: PointOk(s, t)) && (s.initialized ==> s.value.Some?)
  }

  ghost predicate EventsOk<T>(s: State<T>)
  {
    forall i | 0 <= i < |s.log| :: EventOk(s, s.log[i])
  }

  /** At most one `set` has succeeded, and none is about to once one has. */
  ghost predicate OneWinner<T>(s: State<T>)
  {
    && (forall i, j | 0 <= i < |s.log| && 0 <= j < |s.log| && s.log[i].SetOk? && s.log[j].SetOk? :: i == j)
    && (forall t: Thread, i | 0 <= i < |s.log| && s.log[i].SetOk? :: !PointOf(s, t).UnlockWon?)
  }

  ghost predicate Inv<T>(s: State<T>)
  {
    PointsOk(s) && EventsOk(s) && OneWinner(s)
  }

  lemma OthersUnmoved<T>(s: State<T>, a: Action<T>, u: Thread)
    requires Next(s, a).Some? && u != a.t
    ensures PointOf(Next(s, a).value, u) == PointOf(s, u)
    ensures u in s.arguments <==> u in Next(s, a).value.arguments
    ensures u in s.arguments ==> s.arguments[u] == Next(s, a).value.arguments[u]
  {
  }

  lemma PointsKept<T>(s: State<T>, a: Action<T>)
    requires PointsOk(s) && Next(s, a).Some?
    ensures PointsOk(Next(s, a).value)
  {
    var s' := Next(s, a).value;
    assert PointOk(s, a.t);
    forall t: Thread ensures PointOk(s', t) {
      assert PointOk(s, t);
      if t != a.t { OthersUnmoved(s, a, t); }
    }
  }

  lemma EventsKept<T>(s: State<T>, a: Action<T>)
    requires PointsOk(s) && EventsOk(s) && Next(s, a).Some?
    ensures EventsOk(Next(s, a).value)
  {
    assert PointOk(s, a.t);
  }

  lemma OneWinnerKept<T>(s: State<T>, a: Action<T>)
    requires PointsOk(s) && EventsOk(s) && OneWinner(s) && Next(s, a).Some?
    ensures OneWinner(Next(s, a).value)
  {
    var s', p := Next(s, a).value, PointOf(s, a.t);
    assert PointOk(s, a.t);
    forall t: Thread, i | 0 <= i < |s'.log| && s'.log[i].SetOk? ensures !PointOf(s', t).UnlockWon? {
      assert PointOk(s, t);
      if t != a.t { OthersUnmoved(s, a, t); }
      assert i < |s.log| ==> EventOk(s, s.log[i]);
    }
  }

  ghost predicate Run<T>(states: seq<State<T>>, actions: seq<Action<T>>)
  {
    && |states| == |actions| + 1
    && states[0] == Initial()
    && (forall i | 0 <= i < |actions| :: Next(states[i], actions[i]) == Some(states[i + 1]))
  }

  lemma InitiallyInv<T>()
    ensures Inv(Initial<T>())
  {
  }

  lemma {:induction false} AlwaysInv<T>(states: seq<State<T>>, actions: seq<Action<T>>, i: nat)
    requires Run(states, actions) && i < |states|
    ensures Inv(states[i])
  {
    hide Next, PointsOk, EventsOk, OneWinner;
    if i == 0 {
      InitiallyInv<T>();
    } else {
      AlwaysInv(states, actions, i - 1);
      assert Next(states[i - 1], actions[i - 1]) == Some(states[i - 1 + 1]);
      PointsKept(states[i - 1], actions[i - 1]);
      EventsKept(states[i - 1], actions[i - 1]);
      OneWinnerKept(states[i - 1], actions[i - 1]);
    }
  }

  /** In every run at most one `set` succeeds. */
  lemma AtMostOneSet<T>(states: seq<State<T>>, actions: seq<Action<T>>, n: nat, i: nat, j: nat)
    requires Run(states, actions) && n < |states| && i < |states[n].log| && j < |states[n].log|
    requires states[n].log[i].SetOk? && states[n].log[j].SetOk?
    ensures i == j
  {
    AlwaysInv(states, actions, n);
  }

  /**
   In every run: a failing `set` returns its own argument, and only once the cell is
   initialized; whatever succeeds agrees with the cell; nothing unwritten is read.
   */
  lemma ReturnsAreRight<T>(states: seq<State<T>>, actions: seq<Action<T>>, n: nat, i: nat)
    requires Run(states, actions) && n < |states| && i < |states[n].log|
    ensures var s, e := states[n], states[n].log[i];
            && !e.GotGarbage?
            && (e.GotSome? ==> s.initialized && s.value == Some(e.v))
            && (e.SetOk? ==> s.initialized && s.value == Some(e.argument))
            && (e.SetErr? ==> s.initialized && e.returned == e.argument)
  {
    AlwaysInv(states, actions, n);
    assert EventOk(states[n], states[n].log[i]);
  }

  predicate SucceededWith<T(==)>(e: Event<T>, v: T)
  {
    (e.GotSome? && e.v == v) || (e.SetOk? && e.argument == v)
  }

  /** Two successful calls, `get` or `set`, agree on the value, wherever they are in a run. */
  lemma AllAgree<T>(states: seq<State<T>>, actions: seq<Action<T>>, n: nat, i: nat, j: nat, v: T, w: T)
    requires Run(states, actions) && n < |states| && i < |states[n].log| && j < |states[n].log|
    requires SucceededWith(states[n].log[i], v) && SucceededWith(states[n].log[j], w)
    ensures v == w
  {
    ReturnsAreRight(states, actions, n, i);
    ReturnsAreRight(states, actions, n, j);
  }

  lemma StableStep<T>(s: State<T>, a: Action<T>)
    requires PointsOk(s) && Next(s, a).Some? && s.initialized
    ensures Next(s, a).value.initialized && Next(s, a).value.value == s.value
  {
    assert PointOk(s, a.t);
  }

  /** Once initialized, the cell stays initialized and keeps its value ever after. */
  lemma {:induction false} StableEverAfter<T>(states: seq<State<T>>, actions: seq<Action<T>>, i: nat, j: nat)
    requires Run(states, actions) && i <= j < |states| && states[i].initialized
    ensures states[j].initialized && states[j].value == states[i].value
    decreases j
  {
    if i < j {
      hide Next, PointsOk, EventsOk, OneWinner;
      StableEverAfter(states, actions, i, j - 1);
      AlwaysInv(states, actions, j - 1);
      assert Next(states[j - 1], actions[j - 1]) == Some(states[j - 1 + 1]);
      StableStep(states[j - 1], actions[j - 1]);
    }
  }

  lemma {:induction false} Unmoved<T>(states: seq<State<T>>, actions: seq<Action<T>>, m: nat, k: nat, t: Thread)
    requires Run(states, actions) && m <= k < |states| && forall x | m <= x < k :: actions[x].t != t
    ensures PointOf(states[k], t) == PointOf(states[m], t)
    decreases k
  {
    hide Next;
    if m == k {
    } else {
      Unmoved(states, actions, m, k - 1, t);
      assert Next(states[k - 1], actions[k - 1]) == Some(states[k - 1 + 1]);
      OthersUnmoved(states[k - 1], actions[k - 1], t);
    }
  }

  /** A `get` that loads the flag at `m`, after any success, returns the value with its next step. */
  lemma GetAfterSuccess<T>(states: seq<State<T>>, actions: seq<Action<T>>, n: nat, i: nat, v: T, m: nat, k: nat,
                           t: Thread)
    requires Run(states, actions) && n <= m < k < |actions| && i < |states[n].log|
    requires SucceededWith(states[n].log[i], v)
    requires actions[m] == Step(t) && PointOf(states[m], t).GetLoad?
    requires actions[k] == Step(t) && forall x | m < x < k :: actions[x].t != t
    ensures states[k + 1].log == states[k].log + [GotSome(t, v)]
  {
    ReturnsAreRight(states, actions, n, i);
    StableEverAfter(states, actions, n, m);
    StableEverAfter(states, actions, n, k);
    assert Next(states[m], actions[m]) == Some(states[m + 1]);
    Unmoved(states, actions, m + 1, k, t);
    assert Next(states[k], actions[k]) == Some(states[k + 1]);
  }

  /** A thread takes steps only inside a call, and begins a call only outside of one. */
  lemma OnlyInsideCalls<T>(s: State<T>, a: Action<T>)
    requires Next(s, a).Some?
    ensures a.Step? <==> PointOf(s, a.t) != Idle
  {
  }

  /** The spin lock never deadlocks: while some thread is inside a call, one can step. */
  lemma NeverBlocked<T>(states: seq<State<T>>, actions: seq<Action<T>>, n: nat, t: Thread) returns (u: Thread)
    requires Run(states, actions) && n < |states| && PointOf(states[n], t) != Idle
    ensures PointOf(states[n], u) != Idle && Next(states[n], Step(u)).Some?
  {
    AlwaysInv(states, actions, n);
    var s := states[n];
    u := t;
    if PointOf(s, t).SetLock? && s.lock.Some? { u := s.lock.value; }
    assert PointOk(s, u);
  }

  // What every call returns.

  /** The events of one thread. */
  function Of<T>(log: seq<Event<T>>, t: Thread): seq<Event<T>>
  {
    if log == [] then []
    else
      var last, before := log[|log| - 1], log[..|log| - 1];
      Of(before, t) + if last.t == t then [last] else []
  }

  lemma OneMore<T>(log: seq<Event<T>>, e: Event<T>, t: Thread)
    ensures Of(log + [e], t) == Of(log, t) + if e.t == t then [e] else []
  {
    var more := log + [e];
    assert more[..|more| - 1] == log;
  }

  /** The step of thread `t` from `s` initializes the cell. */
  predicate Wins<T>(s: State<T>, s': State<T>)
  {
    !s.initialized && s'.initialized
  }

  /**
   Where a thread is in a call with what it was recorded with: `won` if it has itself
   initialized the cell, `late` if the cell was initialized when the call began.
   */
  ghost predicate SoFar<T>(begin: Action<T>, p: Point<T>, mine: seq<Event<T>>, won: bool, late: bool)
    requires !begin.Step?
  {
    match begin
    case BeginGet(t) =>
      && !won && (p.Idle? || p.GetLoad? || p.GetRead?)
      && if p.Idle? then
           |mine| == 1 && ((mine == [GotNone(t)] && !late) || (mine[0].GotSome? && mine[0].t == t))
         else mine == []
    case BeginSet(t, v) =>
      match p
      case Idle => mine == [if won then SetOk(t, v) else SetErr(t, v, v)]
      case UnlockWon => mine == [] && won
      case GetLoad => false
      case GetRead => false
      case _ => mine == [] && !won && p.v == v
  }

  lemma OwnStep<T>(s: State<T>, begin: Action<T>, mine: seq<Event<T>>, won: bool, late: bool)
    requires !begin.Step? && PointsOk(s) && (late ==> s.initialized) && Next(s, Step(begin.t)).Some?
    requires PointOf(s, begin.t) != Idle && SoFar(begin, PointOf(s, begin.t), mine, won, late)
    requires begin.BeginSet? ==> begin.t in s.arguments && s.arguments[begin.t] == begin.v
    ensures var s' := Next(s, Step(begin.t)).value;
            && s.log <= s'.log
            && SoFar(begin, PointOf(s', begin.t), mine + s'.log[|s.log|..], won || Wins(s, s'), late)
            && s'.arguments == s.arguments
  {
    var s' := Next(s, Step(begin.t)).value;
    assert PointOk(s, begin.t);
    assert s'.log == s.log ==> s'.log[|s.log|..] == [];
    assert mine + [] == mine;
  }

  /** Thread `begin.t` is inside the call it began with action `i`, up to state `j`. */
  ghost predicate Inside<T>(states: seq<State<T>>, actions: seq<Action<T>>, i: nat, j: nat)
  {
    && Run(states, actions) && i < j < |states| && !actions[i].Step?
    && forall k | i < k < j :: PointOf(states[k], actions[i].t) != Idle
  }

  /** One of the thread's own steps in the call initialized the cell. */
  ghost predicate Won<T>(states: seq<State<T>>, actions: seq<Action<T>>, i: nat, j: nat)
    requires i < j < |states| == |actions| + 1
  {
    exists k | i <= k < j :: actions[k].t == actions[i].t && Wins(states[k], states[k + 1])
  }

  lemma StepLogs<T>(s: State<T>, a: Action<T>)
    requires Next(s, a).Some?
    ensures var s' := Next(s, a).value;
            && s.log <= s'.log <= s.log + s'.log[|s.log|..]
            && (s'.log[|s.log|..] == [] || (|s'.log[|s.log|..]| == 1 && s'.log[|s.log|].t == a.t))
    ensures !a.Step? ==> Next(s, a).value.log == s.log && Next(s, a).value.initialized == s.initialized
    ensures PointOf(s, a.t) != Idle ==> a.Step?
  {
  }

  lemma Began<T>(s: State<T>, a: Action<T>)
    requires !a.Step? && Next(s, a).Some?
    ensures SoFar(a, PointOf(Next(s, a).value, a.t), [], false, s.initialized)
    ensures a.BeginSet? ==> a.t in Next(s, a).value.arguments && Next(s, a).value.arguments[a.t] == a.v
  {
  }

  /** What the calling thread is recorded with since state `i`. */
  function Mine<T>(states: seq<State<T>>, i: nat, j: nat, t: Thread): seq<Event<T>>
    requires i <= j < |states| && states[i].log <= states[j].log
  {
    Of(states[j].log[|states[i].log|..], t)
  }

  lemma MineMore<T>(a: State<T>, s: State<T>, s': State<T>, t: Thread, u: Thread)
    requires a.log <= s.log <= s'.log
    requires s'.log == s.log || (|s'.log| == |s.log| + 1 && s'.log[|s.log|].t == u)
    ensures Of(s'.log[|a.log|..], t) == Of(s.log[|a.log|..], t) + if u == t then s'.log[|s.log|..] else []
  {
    var before := s.log[|a.log|..];
    if s'.log == s.log {
      assert s'.log[|s.log|..] == [];
    } else {
      var e := s'.log[|s.log|];
      assert s'.log == s.log + [e] && s'.log[|a.log|..] == before + [e] && s'.log[|s.log|..] == [e];
      OneMore(before, e, t);
    }
  }

  lemma {:induction false} Progress<T>(states: seq<State<T>>, actions: seq<Action<T>>, i: nat, j: nat)
    requires Inside(states, actions, i, j)
    ensures states[i].log <= states[j].log
    ensures SoFar(actions[i], PointOf(states[j], actions[i].t), Mine(states, i, j, actions[i].t),
                  Won(states, actions, i, j), states[i].initialized)
    ensures actions[i].BeginSet? ==>
              actions[i].t in states[j].arguments && states[j].arguments[actions[i].t] == actions[i].v
    decreases j
  {
    hide Next, SoFar, PointsOk, EventsOk, OneWinner;
    var k, t := j - 1, actions[i].t;
    var s, s', a := states[k], states[j], actions[k];
    assert Next(states[k], actions[k]) == Some(states[k + 1]);
    StepLogs(s, a);
    if k == i {
      assert s'.log[|s.log|..] == [];
      Began(s, a);
    } else {
      Progress(states, actions, i, k);
      MineMore(states[i], s, s', t, a.t);
      WonMore(states, actions, i, j);
      if a.t == t {
        AlwaysInv(states, actions, k);
        if states[i].initialized { StableEverAfter(states, actions, i, k); }
        OwnStep(s, actions[i], Mine(states, i, k, t), Won(states, actions, i, k), states[i].initialized);
      } else {
        OthersUnmoved(s, a, t);
        assert Mine(states, i, j, t) == Mine(states, i, k, t) + [] == Mine(states, i, k, t);
      }
    }
  }

  lemma WonMore<T>(states: seq<State<T>>, actions: seq<Action<T>>, i: nat, j: nat)
    requires i < j - 1 && j < |states| == |actions| + 1
    ensures Won(states, actions, i, j) <==>
            Won(states, actions, i, j - 1) || (actions[j - 1].t == actions[i].t && Wins(states[j - 1], states[j]))
  {
    assert actions[j - 1].t == actions[i].t && Wins(states[j - 1], states[j - 1 + 1]) ==> Won(states, actions, i, j);
  }

  /**
   Every call that has returned, whatever other threads did meanwhile: a `get` returned
   once, the value of the cell, or nothing if the cell was not initialized when it began;
   a `set` returned once, `Ok` exactly if it was this call that initialized the cell, and
   otherwise its own argument.
   */
  lemma CallReturns<T>(states: seq<State<T>>, actions: seq<Action<T>>, i: nat, j: nat)
    requires Inside(states, actions, i, j) && PointOf(states[j], actions[i].t) == Idle
    ensures states[i].log <= states[j].log
    ensures var t, mine := actions[i].t, Mine(states, i, j, actions[i].t);
            match actions[i]
            case BeginGet(_) =>
              || (mine == [GotNone(t)] && !states[i].initialized)
              || (states[j].value.Some? && mine == [GotSome(t, states[j].value.value)])
            case BeginSet(_, v) =>
              mine == [if Won(states, actions, i, j) then SetOk(t, v) else SetErr(t, v, v)]
  {
    hide Next, Won, PointsOk, OneWinner;
    Progress(states, actions, i, j);
    AlwaysInv(states, actions, j);
    var t, mine := actions[i].t, Mine(states, i, j, actions[i].t);
    if actions[i].BeginGet? {
      var k := OfMember(states[j].log[|states[i].log|..], t, mine[0]);
      assert EventOk(states[j], states[j].log[|states[i].log| + k]);
    }
  }

  lemma {:induction false} OfMember<T>(log: seq<Event<T>>, t: Thread, e: Event<T>) returns (k: nat)
    requires e in Of(log, t)
    ensures k < |log| && log[k] == e
  {
    if log[|log| - 1] == e {
      k := |log| - 1;
    } else {
      k := OfMember(log[..|log| - 1], t, e);
    }
  }
}
