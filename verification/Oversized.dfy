/**
 The lock-step transfer of a payload that is too long for the length header. The header
 carries the length modulo 2^32, so the receiver takes part in the transfer of a prefix of
 the payload; the transfer is followed through that shorter one, step by step.
 */
module Oversized {
  import opened Bytes
  import opened BasicFramed

  predicate TooLong(c: Config)
  {
    |c.payload| >= LENGTH_LIMIT
  }

  /** The length the header carries. */
  function Announced(c: Config): (m: nat)
    ensures m < LENGTH_LIMIT && m <= |c.payload|
  {
    |c.payload| % LENGTH_LIMIT
  }

  /** The transfer the receiver takes part in. */
  function Cut(c: Config): Config
  {
    Config(c.payload[..Announced(c)], c.capacity)
  }

  /** The chunk that the receiver takes for the last, and its length there; the sender sends a whole page. */
  function Last(c: Config): nat
  {
    LastChunk(Announced(c))
  }

  function Short(c: Config): (n: nat)
    ensures n < MAX_SIZE
  {
    Announced(c) % MAX_SIZE
  }

  /** The bytes written that the receiver never reads. */
  function Unread(c: Config, s: Sender): int
  {
    match s
    case Chunk(i, k) => if i == Last(c) && k > Short(c) then k - Short(c) else 0
    case Ack(i, _) => if i == Last(c) then MAX_SIZE - Short(c) else 0
    case AckMismatch => MAX_SIZE - Short(c)
    case _ => 0
  }

  /** Where the sender of the shorter transfer is. */
  function SenderView(c: Config, s: Sender): Sender
  {
    match s
    case Chunk(i, k) => if i == Last(c) && k >= Short(c) then Ack(i, []) else s
    case AckMismatch => SentAll
    case _ => s
  }

  function View(c: Config, s: State): State
    requires 0 <= Unread(c, s.sender) <= |s.down|
  {
    State(SenderView(c, s.sender), s.receiver, s.down[..|s.down| - Unread(c, s.sender)], s.up)
  }

  predicate SenderNear(c: Config, s: Sender)
  {
    match s
    case Header(_) => true
    case Chunk(i, k) => i <= Last(c) && k < MAX_SIZE
    case Ack(i, _) => i <= Last(c)
    case SentAll => false
    case AckMismatch => true
  }

  /** The state is one of the shorter transfer, with unread bytes behind it. */
  ghost predicate Follows(c: Config, s: State)
  {
    && TooLong(c) && SenderNear(c, s.sender)
    && 0 <= Unread(c, s.sender) <= |s.down| <= c.capacity
    && Inv(Cut(c), View(c, s))
  }

  lemma {:induction false} LowBytes(n: nat, k: nat)
    ensures LeBytes(n % Pow256(k), k) == LeBytes(n, k)
  {
    if k == 0 {
    } else {
      var p := Pow256(k - 1);
      LowBytes(n / 256, k - 1);
      Remainder(n, p);
    }
  }

  lemma Remainder(n: nat, p: nat)
    requires p > 0
    ensures n % (256 * p) % 256 == n % 256 && n % (256 * p) / 256 == n / 256 % p
  {
    var q, r := n / 256 / p, n / 256 % p;
    assert 256 * (q * p) == q * (256 * p);
    Quotient(n, 256 * p, q, 256 * r + n % 256);
  }

  lemma HeaderCut(c: Config)
    ensures LeBytes(|c.payload|, 4) == LeBytes(Announced(c), 4)
  {
    assert Pow256(4) == 256 * Pow256(3) && Pow256(3) == 256 * Pow256(2) && Pow256(2) == 256 * Pow256(1);
    LowBytes(|c.payload|, 4);
  }

  lemma Pages(c: Config, i: nat)
    requires TooLong(c) && i <= Last(c)
    ensures i < LastChunk(|c.payload|) && ChunkLen(|c.payload|, i) == MAX_SIZE
    ensures ChunkLen(Announced(c), i) == if i == Last(c) then Short(c) else MAX_SIZE
    ensures i * MAX_SIZE + ChunkLen(Announced(c), i) <= Announced(c)
    ensures (i + 1) * MAX_SIZE <= |c.payload|
  {
    ChunkFacts(Announced(c), i);
  }

  /** A step is one of the shorter transfer, or writes one more byte that is never read. */
  ghost predicate Matched(c: Config, s: State, s': State, a: Action)
    requires Follows(c, s)
  {
    && SenderNear(c, s'.sender) && 0 <= Unread(c, s'.sender) <= |s'.down| <= c.capacity
    && (|| (Unread(c, s'.sender) == Unread(c, s.sender) && Next(Cut(c), View(c, s), a) == Some(View(c, s')))
        || (Unread(c, s'.sender) == Unread(c, s.sender) + 1 && View(c, s') == View(c, s)))
  }

  lemma HeaderMatched(c: Config, s: State)
    requires Follows(c, s) && s.sender.Header? && SenderNext(c, s).Some?
    ensures Matched(c, s, SenderNext(c, s).value, SenderStep)
  {
    hide LeBytes, Inv, LastChunk, ChunkLen;
    HeaderCut(c);
    Pages(c, 0);
    assert s.down[..|s.down|] == s.down;
    var down := SenderNext(c, s).value.down;
    assert down[..|down|] == down;
  }

  lemma PageMatched(c: Config, s: State)
    requires Follows(c, s) && s.sender.Chunk? && SenderNext(c, s).Some?
    requires !(s.sender.i == Last(c) && s.sender.sent >= Short(c))
    ensures Matched(c, s, SenderNext(c, s).value, SenderStep)
  {
    hide Inv, LastChunk, ChunkLen;
    Pages(c, s.sender.i);
    var down := SenderNext(c, s).value.down;
    assert s.down[..|s.down|] == s.down && down[..|down|] == down;
  }

  lemma UnreadMatched(c: Config, s: State)
    requires Follows(c, s) && s.sender.Chunk? && SenderNext(c, s).Some?
    requires s.sender.i == Last(c) && s.sender.sent >= Short(c)
    ensures Matched(c, s, SenderNext(c, s).value, SenderStep)
  {
    hide Inv, LastChunk, ChunkLen;
    Pages(c, s.sender.i);
    var s' := SenderNext(c, s).value;
    var n := |s.down| - Unread(c, s.sender);
    assert s'.down[..n] == s.down[..n];
  }

  lemma AckMatched(c: Config, s: State)
    requires Follows(c, s) && s.sender.Ack? && SenderNext(c, s).Some?
    ensures Matched(c, s, SenderNext(c, s).value, SenderStep)
  {
    hide LeBytes, FromLe, LastChunk, ChunkLen, AckBytes, Acked;
    var i, m, cut, v := s.sender.i, Announced(c), Cut(c), View(c, s);
    Pages(c, i);
    if i < Last(c) { Pages(c, i + 1); }
    if |s.sender.got| == 3 {
      AckComplete(cut, v);
      AckReadsBack(m, i);
    }
  }

  /** While the receiver still reads, there is something to read that is meant for it. */
  lemma NothingUnreadIsRead(c: Config, s: State)
    requires Follows(c, s) && s.down != [] && (s.receiver.ReadHeader? || s.receiver.ReadChunk?)
    ensures View(c, s).down != []
  {
    hide LeBytes, LastChunk, ChunkLen, InStep;
    var v := View(c, s);
    if s.receiver.ReadChunk? { Pages(c, s.receiver.i); }
    if s.sender.Chunk? || s.sender.Ack? {
      Pages(c, s.sender.i);
      ChunkFacts(Announced(c), Last(c));
    }
    assert |v.down| == Written(Cut(c), v.sender) - Read(v.receiver);
  }

  lemma ReceiverMatched(c: Config, s: State)
    requires Follows(c, s) && ReceiverNext(c, s).Some?
    ensures Matched(c, s, ReceiverNext(c, s).value, ReceiverStep)
  {
    hide LeBytes, FromLe, LastChunk, ChunkLen, AckBytes, Inv;
    if s.receiver.ReadHeader? || s.receiver.ReadChunk? {
      NothingUnreadIsRead(c, s);
      var n := |s.down| - Unread(c, s.sender);
      assert s.down[1..][..n - 1] == s.down[..n][1..];
    }
  }

  lemma StepMatched(c: Config, s: State, a: Action)
    requires Follows(c, s) && Next(c, s, a).Some?
    ensures Matched(c, s, Next(c, s, a).value, a)
  {
    hide Follows, Matched;
    if a.ReceiverStep? {
      ReceiverMatched(c, s);
    } else {
      match s.sender
      case Header(_) => HeaderMatched(c, s);
      case Chunk(i, k) => if i == Last(c) && k >= Short(c) { UnreadMatched(c, s); } else { PageMatched(c, s); }
      case Ack(_, _) => AckMatched(c, s);
      case _ =>
    }
  }

  /** The bytes moved so far, in the shorter transfer and besides. */
  function Moved(c: Config, s: State): int
    requires 0 <= Unread(c, s.sender) <= |s.down|
  {
    StepsTaken(Cut(c), View(c, s)) + Unread(c, s.sender)
  }

  lemma FollowsKept(c: Config, s: State, a: Action)
    requires Follows(c, s) && Next(c, s, a).Some?
    ensures Follows(c, Next(c, s, a).value)
    ensures Moved(c, Next(c, s, a).value) == Moved(c, s) + 1
  {
    hide Inv, SenderNext, ReceiverNext, StepsTaken, Cut;
    StepMatched(c, s, a);
    var v := View(c, s);
    if Next(Cut(c), v, a).Some? {
      if a.SenderStep? {
        SenderKeeps(Cut(c), v);
        SenderCounts(Cut(c), v);
      } else {
        ReceiverKeeps(Cut(c), v);
        ReceiverCounts(Cut(c), v);
      }
    }
  }

  lemma InitiallyFollows(c: Config)
    requires TooLong(c)
    ensures Follows(c, Initial()) && Moved(c, Initial()) == 0
  {
    InitiallyInv(Cut(c));
    NothingMoved(Cut(c));
  }

  /** Every state of every run is one of the shorter transfer, with unread bytes behind it. */
  lemma {:induction false} AlwaysFollows(c: Config, states: seq<State>, actions: seq<Action>, i: nat)
    requires TooLong(c) && Run(c, states, actions) && i < |states|
    ensures Follows(c, states[i]) && Moved(c, states[i]) == i
  {
    hide Follows, Moved, SenderNext, ReceiverNext;
    if i == 0 {
      InitiallyFollows(c);
    } else {
      AlwaysFollows(c, states, actions, i - 1);
      assert Next(c, states[i - 1], actions[i - 1]) == Some(states[i - 1 + 1]);
      FollowsKept(c, states[i - 1], actions[i - 1]);
    }
  }

  /**
   The sender never reports success. The receiver may: what it returns is the payload cut
   to the announced length.
   */
  lemma NeverReported(c: Config, states: seq<State>, actions: seq<Action>, i: nat)
    requires TooLong(c) && Run(c, states, actions) && i < |states|
    ensures !states[i].sender.SentAll?
    ensures states[i].receiver.Received? ==> states[i].receiver.payload == c.payload[..Announced(c)]
  {
    hide SenderNext, ReceiverNext;
    AlwaysFollows(c, states, actions, i);
  }

  /** Every run is over after a fixed number of steps. */
  lemma OversizedRunsEnd(c: Config, states: seq<State>, actions: seq<Action>)
    requires TooLong(c) && Run(c, states, actions)
    ensures |actions| <= TotalSteps(Cut(c)) + MAX_SIZE
  {
    hide Inv, StepsTaken, Next, TotalSteps, Cut;
    var s := states[|actions|];
    AlwaysFollows(c, states, actions, |actions|);
    StepsBounded(Cut(c), View(c, s));
  }

  /** Whether the queue takes what the receiver does not read. */
  predicate Fits(c: Config)
  {
    c.capacity >= MAX_SIZE - Short(c)
  }

  /** The receiver sees the queues of the shorter transfer. */
  lemma ReceiverSteps(c: Config, s: State)
    requires Follows(c, s) && ReceiverNext(Cut(c), View(c, s)).Some?
    ensures ReceiverNext(c, s).Some?
  {
    hide Inv;
  }

  lemma SenderSteps(c: Config, s: State)
    requires Follows(c, s) && SenderNext(Cut(c), View(c, s)).Some? && SenderView(c, s.sender) == s.sender
    ensures SenderNext(c, s).Some?
  {
    hide Inv, LastChunk, ChunkLen;
    if s.sender.Chunk? { Pages(c, s.sender.i); }
  }

  /** The sender has written all the receiver waits for, which has stopped reading. */
  lemma ReceiverDone(c: Config, s: State)
    requires Follows(c, s) && s.sender.Chunk? && SenderView(c, s.sender).Ack? && s.down != []
    requires ReceiverNext(c, s).None?
    ensures View(c, s).down == []
    ensures s.receiver.Received? || (s.receiver.WriteAck? && c.capacity <= |s.up| < 4)
  {
    hide LeBytes, LastChunk, ChunkLen, AckBytes;
    var v := View(c, s);
    ChunkFacts(Announced(c), Last(c));
    Pages(c, Last(c));
    assert [] + v.up == v.up;
    assert |v.down| == Written(Cut(c), v.sender) - Read(v.receiver);
  }

  lemma Stopped(c: Config, s: State)
    requires Follows(c, s) && c.capacity > 0 && SenderNext(c, s).None? && ReceiverNext(c, s).None?
    ensures s.sender == if Fits(c) then AckMismatch else Chunk(Last(c), Short(c) + c.capacity)
    ensures s.receiver.Received? || (!Fits(c) && c.capacity < 4)
  {
    hide Inv, SenderNext, ReceiverNext;
    if s.sender.AckMismatch? {
      Refused(c, s);
    } else {
      CanStep(Cut(c), View(c, s));
      if ReceiverNext(Cut(c), View(c, s)).Some? { ReceiverSteps(c, s); }
      if SenderView(c, s.sender) == s.sender { SenderSteps(c, s); }
      QueueFull(c, s);
      ReceiverDone(c, s);
    }
  }

  lemma Refused(c: Config, s: State)
    requires Follows(c, s) && s.sender.AckMismatch?
    ensures Fits(c) && s.receiver.Received?
  {
  }

  lemma QueueFull(c: Config, s: State)
    requires Follows(c, s) && s.sender.Chunk? && SenderNext(c, s).None?
    ensures |s.down| == c.capacity
  {
    hide Inv, LastChunk, ChunkLen;
    Pages(c, s.sender.i);
  }

  /**
   How a run ends that cannot go on. If the queue takes the rest of the page that the
   receiver does not read, the sender ends with the mismatch of an acknowledgement;
   otherwise it is blocked for ever in the middle of that page. The receiver has returned
   the cut payload as a success, unless the queue is too short for an acknowledgement too.
   */
  lemma OversizedEnds(c: Config, states: seq<State>, actions: seq<Action>)
    requires TooLong(c) && c.capacity > 0 && Run(c, states, actions)
    requires var s := states[|actions|]; SenderNext(c, s).None? && ReceiverNext(c, s).None?
    ensures states[|actions|].sender == if Fits(c) then AckMismatch else Chunk(Last(c), Short(c) + c.capacity)
    ensures Fits(c) || c.capacity >= 4 ==> states[|actions|].receiver == Received(c.payload[..Announced(c)])
  {
    hide SenderNext, ReceiverNext, Follows;
    AlwaysFollows(c, states, actions, |actions|);
    Stopped(c, states[|actions|]);
    NeverReported(c, states, actions, |actions|);
  }
}
