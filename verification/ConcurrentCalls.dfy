/**
 What every call of the lookup data manager does, whatever other threads do meanwhile: the
 events a thread is recorded with between the start of a call and its return.
 */
module ConcurrentCalls {
  import opened Bytes
  import opened Arena
  import opened LookupTable
  import opened LookupConcurrency

  /** The events of one thread. */
  function Of(log: seq<Event>, t: Thread): seq<Event>
  {
    if log == [] then []
    else
      var last, before := log[|log| - 1], log[..|log| - 1];
      Of(before, t) + if last.t == t then [last] else []
  }

  lemma {:induction false} OfSum(a: seq<Event>, b: seq<Event>, t: Thread)
    ensures Of(a + b, t) == Of(a, t) + Of(b, t)
    decreases |b|
  {
    if b == [] {
      assert a + b == a;
    } else {
      var all, before := a + b, b[..|b| - 1];
      assert all[..|all| - 1] == a + before;
      OfSum(a, before, t);
    }
  }

  lemma {:induction false} OfMember(log: seq<Event>, t: Thread, e: Event) returns (k: nat)
    requires e in Of(log, t)
    ensures k < |log| && log[k] == e
  {
    if log[|log| - 1] == e {
      k := |log| - 1;
    } else {
      k := OfMember(log[..|log| - 1], t, e);
    }
  }

  /** Insertions of a thread, in order. */
  function Insertions(t: Thread, pairs: seq<Record>): seq<Event>
  {
    seq(|pairs|, k requires 0 <= k < |pairs| => Inserted(t, pairs[k]))
  }

  /** All that a call is recorded with. */
  predicate Complete(call: Call, t: Thread, mine: seq<Event>)
  {
    match call
    case Extend(pairs) => mine == Insertions(t, pairs)
    case Finish => |mine| == 2 && mine[0].Finished? && mine == [Finished(t, mine[0].id), Replaced(t, mine[0].id)]
    case Abort => mine == [Aborted(t)]
    case Create => |mine| == 1 && mine[0].Viewed? && mine[0].t == t
  }

  /** What a thread at point `p` of a call has been recorded with. */
  predicate SoFar(call: Call, t: Thread, p: Point, mine: seq<Event>)
  {
    match p
    case Idle => Complete(call, t, mine)
    case LockBuilder(c) => c == call && !call.Create? && mine == []
    case Inserting(rest) => call.Extend? && mine + Insertions(t, rest) == Insertions(t, call.pairs)
    case Building => call.Finish? && mine == []
    case Dropping => call.Abort? && mine == []
    case LockWrite(next) => call.Finish? && mine == [Finished(t, next)]
    case Replacing(next) => call.Finish? && mine == [Finished(t, next)]
    case UnlockWrite => call.Finish? && Complete(call, t, mine)
    case UnlockBuilder => !call.Create? && Complete(call, t, mine)
    case LockRead => call.Create? && mine == []
    case Cloning => call.Create? && mine == []
    case UnlockRead => call.Create? && Complete(call, t, mine)
  }

  lemma OwnStep(s: State, t: Thread, call: Call, mine: seq<Event>)
    requires SoFar(call, t, PointOf(s, t), mine) && Next(s, Step(t)).Some?
    ensures SoFar(call, t, PointOf(Next(s, Step(t)).value, t), mine + Noted(s.memory, t, PointOf(s, t)))
  {
    hide Touch;
    var p := PointOf(s, t);
    assert mine + [] == mine;
    if p.Inserting? && p.rest != [] {
      assert Insertions(t, p.rest) == [Inserted(t, p.rest[0])] + Insertions(t, p.rest[1..]);
    }
  }

  lemma NotedAlone(m: Memory, u: Thread, p: Point, t: Thread)
    ensures Of(Noted(m, u, p), t) == if u == t then Noted(m, u, p) else []
  {
    var e := Noted(m, u, p);
    if e != [] { assert e[..|e| - 1] == [] && e == [e[0]]; }
  }

  /** What thread `t` is recorded with between two states. */
  function Between(s: State, s': State, t: Thread): seq<Event>
    requires s.log <= s'.log
  {
    Of(s'.log[|s.log|..], t)
  }

  lemma LogGrows(s: State, a: Action)
    requires Next(s, a).Some?
    ensures Next(s, a).value.log == s.log + if a.Begin? then [] else Noted(s.memory, a.t, PointOf(s, a.t))
    ensures forall u: Thread | u != a.t :: PointOf(Next(s, a).value, u) == PointOf(s, u)
  {
    hide Touch, Noted;
  }

  /** Thread `t` is inside the call it began with action `i`, up to state `j`. */
  ghost predicate Inside(states: seq<State>, actions: seq<Action>, i: nat, j: nat, t: Thread, call: Call)
  {
    && Run(states, actions) && i < j < |states| && actions[i] == Begin(t, call)
    && forall k | i < k < j :: PointOf(states[k], t) != Idle
  }

  lemma Began(s: State, t: Thread, call: Call)
    requires Next(s, Begin(t, call)).Some?
    ensures SoFar(call, t, PointOf(Next(s, Begin(t, call)).value, t), [])
  {
  }

  lemma BetweenMore(s: State, s': State, more: seq<Event>, t: Thread)
    requires s.log <= s'.log
    ensures Of((s'.log + more)[|s.log|..], t) == Between(s, s', t) + Of(more, t)
  {
    assert (s'.log + more)[|s.log|..] == s'.log[|s.log|..] + more;
    OfSum(s'.log[|s.log|..], more, t);
  }

  lemma {:induction false} Progress(states: seq<State>, actions: seq<Action>, i: nat, j: nat, t: Thread, call: Call)
    requires Inside(states, actions, i, j, t, call)
    ensures states[i].log <= states[j].log
    ensures SoFar(call, t, PointOf(states[j], t), Between(states[i], states[j], t))
    decreases j
  {
    hide Next, SoFar, Of, Noted;
    var k := j - 1;
    assert Next(states[k], actions[k]) == Some(states[k + 1]);
    LogGrows(states[k], actions[k]);
    OfNothing(t);
    if k == i {
      assert states[j].log[|states[i].log|..] == [];
      Began(states[i], t, call);
    } else {
      Progress(states, actions, i, k, t, call);
      var a := actions[k];
      var mine, p := Between(states[i], states[k], t), PointOf(states[k], a.t);
      BetweenMore(states[i], states[k], if a.Begin? then [] else Noted(states[k].memory, a.t, p), t);
      NotedAlone(states[k].memory, a.t, p, t);
      assert mine + [] == mine;
      if a.t == t {
        InsideSteps(states[k], a);
        OwnStep(states[k], t, call, mine);
      }
    }
  }

  lemma OfNothing(t: Thread)
    ensures Of([], t) == []
  {
  }

  lemma InsideSteps(s: State, a: Action)
    requires Next(s, a).Some? && PointOf(s, a.t) != Idle
    ensures a.Step?
  {
  }

  /**
   A call that has returned has done its work and nothing else: an extension has inserted
   its pairs in order, a finish has taken one table from the builder and published that
   one, an abort has dropped one, and a creation has taken one view.
   */
  lemma CallsDoTheirWork(states: seq<State>, actions: seq<Action>, i: nat, j: nat, t: Thread, call: Call)
    requires Inside(states, actions, i, j, t, call) && PointOf(states[j], t) == Idle
    ensures states[i].log <= states[j].log && Complete(call, t, Between(states[i], states[j], t))
  {
    hide Next;
    Progress(states, actions, i, j, t, call);
  }

  lemma LogNow(s: State, s': State, t: Thread, e: Event) returns (k: nat)
    requires s.log <= s'.log && e in Between(s, s', t)
    ensures |s.log| <= k < |s'.log| && s'.log[k] == e
  {
    var n := OfMember(s'.log[|s.log|..], t, e);
    k := |s.log| + n;
  }

  /**
   A finish that has returned has published a table with exactly the insertions that were
   pending at one moment of the call, and that table stays so.
   */
  lemma FinishPublishes(states: seq<State>, actions: seq<Action>, i: nat, j: nat, t: Thread, n: nat)
    returns (k: nat, id: Id)
    requires Inside(states, actions, i, j, t, Finish) && PointOf(states[j], t) == Idle && j <= n < |states|
    ensures |states[i].log| <= k < |states[j].log| && states[j].log[k] == Finished(t, id)
    ensures id in states[j].memory.published && id in states[n].memory.published
    ensures TableAt(states[n].memory.heap, id) == Merge(map[], Pending(states[j].log[..k]))
  {
    hide Next, LocksOk, DataOk, LookupConcurrency.Apart, Merge, Pending, Of;
    CallsDoTheirWork(states, actions, i, j, t, Finish);
    var mine := Between(states[i], states[j], t);
    id := mine[0].id;
    assert mine[1] == Replaced(t, id);
    k := LogNow(states[i], states[j], t, mine[0]);
    var l := LogNow(states[i], states[j], t, mine[1]);
    AlwaysInv(states, actions, j);
    ReplacedIsPublished(states[j].log, l);
    assert FinishedOk(states[j].memory, states[j].log, k);
    ViewsNeverChange(states, actions, j, n);
  }

  lemma {:induction false} ReplacedIsPublished(log: seq<Event>, l: nat)
    requires l < |log| && log[l].Replaced?
    ensures log[l].id in Replacements(log)
  {
    if l == |log| - 1 {
    } else {
      ReplacedIsPublished(log[..|log| - 1], l);
    }
  }

  /** A creation that has returned has taken a view of what was published at one moment of the call. */
  lemma CreateViews(states: seq<State>, actions: seq<Action>, i: nat, j: nat, t: Thread) returns (k: nat, id: Id)
    requires Inside(states, actions, i, j, t, Create) && PointOf(states[j], t) == Idle
    ensures |states[i].log| <= k < |states[j].log| && states[j].log[k] == Viewed(t, id)
    ensures id == Latest(states[j].log[..k]) && id in states[j].memory.views
  {
    hide Next, LocksOk, DataOk, LookupConcurrency.Apart, Of, Replacements;
    CallsDoTheirWork(states, actions, i, j, t, Create);
    var mine := Between(states[i], states[j], t);
    id := mine[0].id;
    k := LogNow(states[i], states[j], t, mine[0]);
    AlwaysInv(states, actions, j);
    ViewedIsTaken(states[j].log, k);
  }

  lemma {:induction false} ViewedIsTaken(log: seq<Event>, l: nat)
    requires l < |log| && log[l].Viewed?
    ensures log[l].id in ViewsTaken(log)
  {
    if l == |log| - 1 {
    } else {
      ViewedIsTaken(log[..|log| - 1], l);
    }
  }
}
