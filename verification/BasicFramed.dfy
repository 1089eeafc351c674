/**
 The lock-step transfer used before the application starts, as two processes over two
 byte queues of any capacity. Every byte written or read is a step of its own.
 */
module BasicFramed {
  import opened Bytes

  const MAX_SIZE := 4096
  const LENGTH_LIMIT := 0x1_0000_0000

  /** The index of the last chunk, the one shorter than a page and possibly empty. */
  function LastChunk(len: nat): nat
  {
    len / MAX_SIZE
  }

  function ChunkLen(len: nat, i: nat): (n: nat)
    ensures n <= MAX_SIZE
  {
    if i < LastChunk(len) then MAX_SIZE else len % MAX_SIZE
  }

  /** The sender: writing the header, writing chunk `i`, or reading its acknowledgement. */
  datatype Sender =
    | Header(sent: nat)
    | Chunk(i: nat, sent: nat)
    | Ack(i: nat, got: seq<byte>)
    | SentAll
    | AckMismatch

  /** The receiver: reading the header, reading chunk `i` behind `data`, or acknowledging it. */
  datatype Receiver =
    | ReadHeader(got: seq<byte>)
    | ReadChunk(len: nat, i: nat, data: seq<byte>)
    | WriteAck(len: nat, i: nat, data: seq<byte>, sent: nat)
    | Received(payload: seq<byte>)

  datatype State = State(sender: Sender, receiver: Receiver, down: seq<byte>, up: seq<byte>)

  /** What is sent, and how many bytes each queue holds at most. */
  datatype Config = Config(payload: seq<byte>, capacity: nat)

  datatype Action = SenderStep | ReceiverStep

  function Initial(): State
  {
    State(Header(0), ReadHeader([]), [], [])
  }

  /** An empty chunk is not written at all; its acknowledgement is awaited at once. */
  function EnterChunk(len: nat, i: nat): Sender
  {
    if ChunkLen(len, i) == 0 then Ack(i, []) else Chunk(i, 0)
  }

  function EnterRead(len: nat, i: nat, data: seq<byte>): Receiver
  {
    if ChunkLen(len, i) == 0 then WriteAck(len, i, data, 0) else ReadChunk(len, i, data)
  }

  function AckBytes(len: nat, i: nat): (s: seq<byte>)
    ensures |s| == 4
  {
    LeBytes(ChunkLen(len, i), 4)
  }

  /** `send_raw`, one byte at a time; `None` while it is blocked or done. */
  function SenderNext(c: Config, s: State): Option<State>
  {
    var n := |c.payload|;
    match s.sender
    case Header(k) =>
      if k >= 4 || |s.down| >= c.capacity then None
      else Some(s.(down := s.down + [LeBytes(n, 4)[k]], sender := if k == 3 then EnterChunk(n, 0) else Header(k + 1)))
    case Chunk(i, k) =>
      var at := i * MAX_SIZE + k;
      if at >= n || |s.down| >= c.capacity then None
      else Some(s.(down := s.down + [c.payload[at]],
                   sender := if k + 1 == ChunkLen(n, i) then Ack(i, []) else Chunk(i, k + 1)))
    case Ack(i, got) =>
      if s.up == [] then None
      else
        var ack := got + [s.up[0]];
        Some(s.(up := s.up[1..],
                sender := if |ack| < 4 then Ack(i, ack)
                          else if FromLe(ack) != ChunkLen(n, i) then AckMismatch
                          else if i == LastChunk(n) then SentAll else EnterChunk(n, i + 1)))
    case SentAll => None
    case AckMismatch => None
  }

  /** `receive_raw`, one byte at a time. */
  function ReceiverNext(c: Config, s: State): Option<State>
  {
    match s.receiver
    case ReadHeader(got) =>
      if s.down == [] then None
      else
        var header := got + [s.down[0]];
        Some(s.(down := s.down[1..],
                receiver := if |header| < 4 then ReadHeader(header) else EnterRead(FromLe(header), 0, [])))
    case ReadChunk(len, i, data) =>
      if s.down == [] then None
      else
        var more := data + [s.down[0]];
        Some(s.(down := s.down[1..],
                receiver := if |more| == i * MAX_SIZE + ChunkLen(len, i) then WriteAck(len, i, more, 0)
                            else ReadChunk(len, i, more)))
    case WriteAck(len, i, data, k) =>
      if k >= 4 || |s.up| >= c.capacity then None
      else Some(s.(up := s.up + [AckBytes(len, i)[k]],
                   receiver := if k < 3 then WriteAck(len, i, data, k + 1)
                               else if i == LastChunk(len) then Received(data) else EnterRead(len, i + 1, data)))
    case Received(_) => None
  }

  function Next(c: Config, s: State, a: Action): Option<State>
  {
    if a.SenderStep? then SenderNext(c, s) else ReceiverNext(c, s)
  }

  /** All bytes that go down: the header and the payload. */
  function Stream(payload: seq<byte>): seq<byte>
  {
    LeBytes(|payload|, 4) + payload
  }

  /** How many bytes have been written down and read from there, and likewise up. */
  function Written(c: Config, s: Sender): int
  {
    var n := |c.payload|;
    match s
    case Header(k) => k
    case Chunk(i, k) => 4 + i * MAX_SIZE + k
    case Ack(i, _) => 4 + i * MAX_SIZE + ChunkLen(n, i)
    case _ => 4 + n
  }

  function Read(r: Receiver): int
  {
    match r
    case ReadHeader(got) => |got|
    case ReadChunk(_, _, data) => 4 + |data|
    case WriteAck(_, _, data, _) => 4 + |data|
    case Received(payload) => 4 + |payload|
  }

  ghost predicate SenderOk(c: Config, s: Sender)
  {
    var n := |c.payload|;
    match s
    case Header(k) => k < 4
    case Chunk(i, k) => i <= LastChunk(n) && k < ChunkLen(n, i)
    case Ack(i, got) => i <= LastChunk(n) && |got| < 4
    case SentAll => true
    case AckMismatch => false
  }

  ghost predicate ReceiverOk(c: Config, r: Receiver)
  {
    var n := |c.payload|;
    match r
    case ReadHeader(got) => |got| < 4 && got == LeBytes(n, 4)[..|got|]
    case ReadChunk(len, i, data) =>
      && len == n && i <= LastChunk(n) && i * MAX_SIZE <= |data| < i * MAX_SIZE + ChunkLen(n, i)
      && data <= c.payload
    case WriteAck(len, i, data, k) =>
      len == n && i <= LastChunk(n) && k < 4 && |data| == i * MAX_SIZE + ChunkLen(n, i) && data <= c.payload
    case Received(payload) => payload == c.payload
  }

  /** The receiver is still behind chunk `i`: no byte of its acknowledgement exists yet. */
  predicate Before(r: Receiver, i: nat)
  {
    (r.ReadHeader? && i == 0) || (r.ReadChunk? && r.i == i)
  }

  /**
   What the receiver has acknowledged since chunk `i` was sent. It can run ahead of the
   sender by one acknowledgement, when the last chunk is empty and needs no reading.
   */
  ghost predicate Acked(c: Config, r: Receiver, i: nat, acks: seq<byte>)
  {
    var n := |c.payload|;
    var ahead := i + 1 == LastChunk(n) && ChunkLen(n, i + 1) == 0;
    match r
    case ReadHeader(_) => i == 0 && acks == []
    case ReadChunk(_, j, data) =>
      || (j == i && acks == [])
      || (j == i + 1 && |data| == (i + 1) * MAX_SIZE && acks == AckBytes(n, i))
    case WriteAck(_, j, _, k) =>
      && k < 4
      && (|| (j == i && acks == AckBytes(n, i)[..k])
          || (ahead && j == i + 1 && acks == AckBytes(n, i) + AckBytes(n, i + 1)[..k]))
    case Received(_) =>
      || (i == LastChunk(n) && acks == AckBytes(n, i))
      || (ahead && acks == AckBytes(n, i) + AckBytes(n, i + 1))
  }

  /** How far apart the two processes can be, and what is on its way up. */
  ghost predicate InStep(c: Config, s: State)
  {
    match s.sender
    case Header(_) => s.receiver.ReadHeader? && s.up == []
    case Chunk(i, _) => Before(s.receiver, i) && s.up == []
    case Ack(i, got) => Acked(c, s.receiver, i, got + s.up)
    case _ => s.receiver.Received? && s.up == []
  }

  ghost predicate Inv(c: Config, s: State)
  {
    && |c.payload| < LENGTH_LIMIT
    && SenderOk(c, s.sender) && ReceiverOk(c, s.receiver) && InStep(c, s)
    && 0 <= Read(s.receiver) <= Written(c, s.sender) <= 4 + |c.payload|
    && s.down == Stream(c.payload)[Read(s.receiver)..Written(c, s.sender)]
  }

  lemma ChunkFacts(len: nat, i: nat)
    requires i <= LastChunk(len)
    ensures i * MAX_SIZE + ChunkLen(len, i) <= len
    ensures i == LastChunk(len) ==> i * MAX_SIZE + ChunkLen(len, i) == len
    ensures i < LastChunk(len) ==> i * MAX_SIZE + ChunkLen(len, i) == (i + 1) * MAX_SIZE
  {
  }

  lemma AckReadsBack(len: nat, i: nat)
    ensures FromLe(AckBytes(len, i)) == ChunkLen(len, i)
  {
    assert Pow256(4) == 256 * Pow256(3) && Pow256(3) == 256 * Pow256(2) && Pow256(2) == 256 * Pow256(1);
    LeRoundTrip(ChunkLen(len, i), 4);
  }

  /** The fourth byte of an acknowledgement completes the one the receiver wrote. */
  lemma AckComplete(c: Config, s: State)
    requires Inv(c, s) && s.sender.Ack? && s.up != [] && |s.sender.got| == 3
    ensures s.sender.got + [s.up[0]] == AckBytes(|c.payload|, s.sender.i)
    ensures s.receiver.ReadChunk? ==> s.up[1..] == [] && Before(s.receiver, s.sender.i + 1)
    ensures s.sender.i == LastChunk(|c.payload|) ==> s.up[1..] == [] && s.receiver.Received?
    ensures s.sender.i < LastChunk(|c.payload|) && !s.receiver.ReadChunk? ==>
              && ChunkLen(|c.payload|, s.sender.i + 1) == 0
              && Acked(c, s.receiver, s.sender.i + 1, s.up[1..])
  {
    var got, i, n := s.sender.got, s.sender.i, |c.payload|;
    var acks, ack := got + s.up, AckBytes(n, i);
    assert acks[..4] == got + [s.up[0]] && acks[4..] == s.up[1..];
    assert forall more: seq<byte> :: (ack + more)[..4] == ack && (ack + more)[4..] == more;
  }

  lemma SenderAckKeeps(c: Config, s: State)
    requires Inv(c, s) && s.sender.Ack? && s.up != []
    ensures Inv(c, SenderNext(c, s).value)
  {
    hide LeBytes, FromLe, ChunkLen, AckBytes, LastChunk, Stream;
    var got, i, n, s' := s.sender.got, s.sender.i, |c.payload|, SenderNext(c, s).value;
    ChunkFacts(n, i);
    if |got| == 3 {
      AckComplete(c, s);
      AckReadsBack(n, i);
      if i < LastChunk(n) { ChunkFacts(n, i + 1); }
      assert [] + s.up[1..] == s.up[1..];
    } else {
      assert got + [s.up[0]] + s.up[1..] == got + s.up;
    }
  }

  lemma SenderHeaderKeeps(c: Config, s: State)
    requires Inv(c, s) && s.sender.Header? && |s.down| < c.capacity
    ensures Inv(c, SenderNext(c, s).value)
  {
    hide LeBytes, FromLe, ChunkLen, LastChunk, AckBytes;
    var n, k, all := |c.payload|, s.sender.sent, Stream(c.payload);
    ChunkFacts(n, 0);
    assert all[k] == LeBytes(n, 4)[k];
    assert all[Read(s.receiver)..k] + [all[k]] == all[Read(s.receiver)..k + 1];
  }

  lemma SenderChunkKeeps(c: Config, s: State)
    requires Inv(c, s) && s.sender.Chunk? && |s.down| < c.capacity
    ensures Inv(c, SenderNext(c, s).value)
  {
    hide LeBytes, FromLe, ChunkLen, LastChunk, AckBytes;
    var n, at, all := |c.payload|, s.sender.i * MAX_SIZE + s.sender.sent, Stream(c.payload);
    ChunkFacts(n, s.sender.i);
    assert all[4 + at] == c.payload[at];
    assert all[Read(s.receiver)..4 + at] + [all[4 + at]] == all[Read(s.receiver)..4 + at + 1];
  }

  lemma SenderKeeps(c: Config, s: State)
    requires Inv(c, s) && SenderNext(c, s).Some?
    ensures Inv(c, SenderNext(c, s).value)
  {
    hide Inv;
    match s.sender
    case Header(_) => SenderHeaderKeeps(c, s);
    case Chunk(_, _) => SenderChunkKeeps(c, s);
    case Ack(_, _) => SenderAckKeeps(c, s);
    case _ =>
  }

  lemma HeaderReadsBack(n: nat)
    requires n < LENGTH_LIMIT
    ensures FromLe(LeBytes(n, 4)) == n
  {
    assert Pow256(4) == 256 * Pow256(3) && Pow256(3) == 256 * Pow256(2) && Pow256(2) == 256 * Pow256(1);
    LeRoundTrip(n, 4);
  }

  lemma ReadHeaderKeeps(c: Config, s: State)
    requires Inv(c, s) && s.receiver.ReadHeader? && s.down != []
    ensures Inv(c, ReceiverNext(c, s).value)
  {
    hide LeBytes, FromLe;
    var n, got := |c.payload|, s.receiver.got;
    HeaderReadsBack(n);
    assert s.down[0] == Stream(c.payload)[|got|] == LeBytes(n, 4)[|got|];
    assert got + [s.down[0]] == LeBytes(n, 4)[..|got| + 1];
    assert LeBytes(n, 4)[..4] == LeBytes(n, 4);
    ChunkFacts(n, 0);
    assert AckBytes(n, 0)[..0] == [];
  }

  lemma ReadChunkKeeps(c: Config, s: State)
    requires Inv(c, s) && s.receiver.ReadChunk? && s.down != []
    ensures Inv(c, ReceiverNext(c, s).value)
  {
    hide LeBytes, FromLe, LastChunk;
    var n, data := |c.payload|, s.receiver.data;
    assert s.down[0] == Stream(c.payload)[4 + |data|] == c.payload[|data|];
    ChunkFacts(n, s.receiver.i);
    assert AckBytes(n, s.receiver.i)[..0] == [];
    if s.sender.Ack? { ChunkFacts(n, s.sender.i); }
  }

  lemma WriteAckKeeps(c: Config, s: State)
    requires Inv(c, s) && s.receiver.WriteAck? && |s.up| < c.capacity
    ensures Inv(c, ReceiverNext(c, s).value)
  {
    hide LeBytes, FromLe, AckBytes, LastChunk, Stream, SenderOk, Written;
    var n, i, k := |c.payload|, s.receiver.i, s.receiver.sent;
    var ack := AckBytes(n, i);
    ChunkFacts(n, i);
    if i < LastChunk(n) { ChunkFacts(n, i + 1); }
    assert ack[..k] + [ack[k]] == ack[..k + 1];
    assert ack[..4] == ack;
    assert s.sender.got + (s.up + [ack[k]]) == s.sender.got + s.up + [ack[k]];
  }

  lemma ReceiverKeeps(c: Config, s: State)
    requires Inv(c, s) && ReceiverNext(c, s).Some?
    ensures Inv(c, ReceiverNext(c, s).value)
  {
    hide Inv;
    match s.receiver
    case ReadHeader(_) => ReadHeaderKeeps(c, s);
    case ReadChunk(_, _, _) => ReadChunkKeeps(c, s);
    case WriteAck(_, _, _, _) => WriteAckKeeps(c, s);
    case _ =>
  }

  ghost predicate Run(c: Config, states: seq<State>, actions: seq<Action>)
  {
    && |states| == |actions| + 1
    && states[0] == Initial()
    && (forall i | 0 <= i < |actions| :: Next(c, states[i], actions[i]) == Some(states[i + 1]))
  }

  lemma InitiallyInv(c: Config)
    requires |c.payload| < LENGTH_LIMIT
    ensures Inv(c, Initial())
  {
  }

  /** The invariant holds after every interleaving of sender and receiver steps. */
  lemma {:induction false} AlwaysInv(c: Config, states: seq<State>, actions: seq<Action>, i: nat)
    requires |c.payload| < LENGTH_LIMIT && Run(c, states, actions) && i < |states|
    ensures Inv(c, states[i])
  {
    hide Inv, SenderNext, ReceiverNext;
    if i == 0 {
      InitiallyInv(c);
    } else {
      AlwaysInv(c, states, actions, i - 1);
      assert Next(c, states[i - 1], actions[i - 1]) == Some(states[i - 1 + 1]);
      if actions[i - 1].SenderStep? {
        SenderKeeps(c, states[i - 1]);
      } else {
        ReceiverKeeps(c, states[i - 1]);
      }
    }
  }

  /** Every acknowledgement matches, and never more than a header and a page are on their way. */
  lemma AcksMatchAndFewInFlight(c: Config, states: seq<State>, actions: seq<Action>, i: nat)
    requires |c.payload| < LENGTH_LIMIT && Run(c, states, actions) && i < |states|
    ensures !states[i].sender.AckMismatch?
    ensures |states[i].down| + |states[i].up| <= 4 + MAX_SIZE
  {
    AlwaysInv(c, states, actions, i);
    InFlight(c, states[i]);
  }

  lemma InFlight(c: Config, s: State)
    requires Inv(c, s)
    ensures |s.down| + |s.up| <= 4 + MAX_SIZE
  {
    hide AckBytes, LeBytes;
    var n := |c.payload|;
    assert |s.down| == Written(c, s.sender) - Read(s.receiver);
    if s.sender.Chunk? || s.sender.Ack? { ChunkFacts(n, s.sender.i); }
    if s.sender.Ack? { assert |s.sender.got + s.up| == |s.sender.got| + |s.up|; }
    if s.receiver.WriteAck? || s.receiver.ReadChunk? { ChunkFacts(n, s.receiver.i); }
  }

  /** While the transfer is not complete, one of the two processes can take a step. */
  lemma NeverDeadlocked(c: Config, states: seq<State>, actions: seq<Action>, i: nat)
    requires |c.payload| < LENGTH_LIMIT && c.capacity > 0 && Run(c, states, actions) && i < |states|
    requires !(states[i].sender.SentAll? && states[i].receiver.Received?)
    ensures SenderNext(c, states[i]).Some? || ReceiverNext(c, states[i]).Some?
  {
    AlwaysInv(c, states, actions, i);
    CanStep(c, states[i]);
  }

  lemma CanStep(c: Config, s: State)
    requires Inv(c, s) && c.capacity > 0 && !(s.sender.SentAll? && s.receiver.Received?)
    ensures SenderNext(c, s).Some? || ReceiverNext(c, s).Some?
  {
    hide AckBytes, LeBytes;
    var n := |c.payload|;
    assert |s.down| == Written(c, s.sender) - Read(s.receiver);
    if s.sender.Chunk? || s.sender.Ack? { ChunkFacts(n, s.sender.i); }
    if s.sender.Ack? { assert |s.sender.got + s.up| == |s.sender.got| + |s.up|; }
    if s.receiver.ReadChunk? { ChunkFacts(n, s.receiver.i); }
  }

  function AcksRead(c: Config, s: Sender): int
  {
    match s
    case Header(_) => 0
    case Chunk(i, _) => 4 * i
    case Ack(i, got) => 4 * i + |got|
    case _ => 4 * (LastChunk(|c.payload|) + 1)
  }

  function AcksWritten(c: Config, r: Receiver): int
  {
    match r
    case ReadHeader(_) => 0
    case ReadChunk(_, i, _) => 4 * i
    case WriteAck(_, i, _, k) => 4 * i + k
    case Received(_) => 4 * (LastChunk(|c.payload|) + 1)
  }

  /** Every byte of the header, the payload and the acknowledgements, written once and read once. */
  function TotalSteps(c: Config): nat
  {
    2 * (4 + |c.payload|) + 2 * 4 * (LastChunk(|c.payload|) + 1)
  }

  function StepsTaken(c: Config, s: State): int
  {
    Written(c, s.sender) + Read(s.receiver) + AcksRead(c, s.sender) + AcksWritten(c, s.receiver)
  }

  lemma SenderCounts(c: Config, s: State)
    requires Inv(c, s) && SenderNext(c, s).Some?
    ensures StepsTaken(c, SenderNext(c, s).value) == StepsTaken(c, s) + 1
  {
    hide LeBytes, FromLe, Stream, InStep, ReceiverOk, Read, AcksWritten;
    var n := |c.payload|;
    SenderKeeps(c, s);
    ChunkFacts(n, 0);
    if s.sender.Chunk? || s.sender.Ack? {
      ChunkFacts(n, s.sender.i);
      if s.sender.i < LastChunk(n) { ChunkFacts(n, s.sender.i + 1); }
    }
  }

  lemma ReadCounts(c: Config, s: State)
    requires Inv(c, s) && !s.receiver.WriteAck? && ReceiverNext(c, s).Some?
    ensures StepsTaken(c, ReceiverNext(c, s).value) == StepsTaken(c, s) + 1
  {
    hide LeBytes, FromLe, Stream, InStep, SenderOk, Written, AcksRead, LastChunk;
  }

  lemma AckCounts(c: Config, s: State)
    requires Inv(c, s) && s.receiver.WriteAck? && ReceiverNext(c, s).Some?
    ensures StepsTaken(c, ReceiverNext(c, s).value) == StepsTaken(c, s) + 1
  {
    hide LeBytes, FromLe, Stream, InStep, SenderOk, Written, AcksRead, LastChunk;
    ChunkFacts(|c.payload|, s.receiver.i);
  }

  lemma ReceiverCounts(c: Config, s: State)
    requires Inv(c, s) && ReceiverNext(c, s).Some?
    ensures StepsTaken(c, ReceiverNext(c, s).value) == StepsTaken(c, s) + 1
  {
    hide Inv, ReceiverNext, StepsTaken;
    if s.receiver.WriteAck? {
      AckCounts(c, s);
    } else {
      ReadCounts(c, s);
    }
  }

  lemma NothingMoved(c: Config)
    ensures StepsTaken(c, Initial()) == 0
  {
  }

  /** After i steps, i bytes have been moved. */
  lemma {:induction false} StepsAreCounted(c: Config, states: seq<State>, actions: seq<Action>, i: nat)
    requires |c.payload| < LENGTH_LIMIT && Run(c, states, actions) && i < |states|
    ensures StepsTaken(c, states[i]) == i
  {
    hide Inv, SenderNext, ReceiverNext, StepsTaken;
    if i == 0 {
      NothingMoved(c);
    } else {
      StepsAreCounted(c, states, actions, i - 1);
      AlwaysInv(c, states, actions, i - 1);
      assert Next(c, states[i - 1], actions[i - 1]) == Some(states[i - 1 + 1]);
      if actions[i - 1].SenderStep? {
        SenderCounts(c, states[i - 1]);
      } else {
        ReceiverCounts(c, states[i - 1]);
      }
    }
  }

  lemma AcksReadBound(c: Config, s: Sender)
    requires SenderOk(c, s)
    ensures AcksRead(c, s) <= 4 * (LastChunk(|c.payload|) + 1)
  {
    hide ChunkLen, LastChunk;
  }

  lemma AcksWrittenBound(c: Config, r: Receiver)
    requires ReceiverOk(c, r)
    ensures AcksWritten(c, r) <= 4 * (LastChunk(|c.payload|) + 1)
  {
    hide ChunkLen, LastChunk, LeBytes;
  }

  lemma StepsBounded(c: Config, s: State)
    requires Inv(c, s)
    ensures StepsTaken(c, s) <= TotalSteps(c)
  {
    hide SenderOk, ReceiverOk, InStep, Stream, Written, Read, AcksRead, AcksWritten;
    AcksReadBound(c, s.sender);
    AcksWrittenBound(c, s.receiver);
  }

  /** Every run is over after a fixed number of steps. */
  lemma RunsEnd(c: Config, states: seq<State>, actions: seq<Action>)
    requires |c.payload| < LENGTH_LIMIT && Run(c, states, actions)
    ensures |actions| <= TotalSteps(c)
  {
    hide Inv, StepsTaken, Next;
    var last := |actions|;
    StepsAreCounted(c, states, actions, last);
    AlwaysInv(c, states, actions, last);
    StepsBounded(c, states[last]);
  }

  /**
   A run that cannot go on has transferred everything: the receiver holds exactly the
   payload, the sender has seen every acknowledgement, and both queues are empty.
   */
  lemma FinishedRunDelivers(c: Config, states: seq<State>, actions: seq<Action>)
    requires |c.payload| < LENGTH_LIMIT && c.capacity > 0 && Run(c, states, actions)
    requires var s := states[|actions|]; SenderNext(c, s).None? && ReceiverNext(c, s).None?
    ensures states[|actions|] == State(SentAll, Received(c.payload), [], [])
    ensures |actions| == TotalSteps(c) == 16 + 2 * |c.payload| + 8 * (|c.payload| / 4096)
  {
    var last := |actions|;
    if !(states[last].sender.SentAll? && states[last].receiver.Received?) {
      NeverDeadlocked(c, states, actions, last);
    }
    AlwaysInv(c, states, actions, last);
    StepsAreCounted(c, states, actions, last);
  }

  /** The receiver never expects, nor returns, 2^32 bytes or more. */
  predicate ShortReceiver(r: Receiver)
  {
    match r
    case ReadHeader(got) => |got| < 4
    case ReadChunk(len, i, data) =>
      len < LENGTH_LIMIT && i <= LastChunk(len) && i * MAX_SIZE <= |data| < i * MAX_SIZE + ChunkLen(len, i)
    case WriteAck(len, i, data, _) =>
      len < LENGTH_LIMIT && i <= LastChunk(len) && |data| == i * MAX_SIZE + ChunkLen(len, i)
    case Received(payload) => |payload| < LENGTH_LIMIT
  }

  lemma ShortKept(c: Config, s: State, a: Action)
    requires ShortReceiver(s.receiver) && Next(c, s, a).Some?
    ensures ShortReceiver(Next(c, s, a).value.receiver)
  {
    hide LeBytes;
    if a.ReceiverStep? {
      match s.receiver
      case ReadHeader(got) =>
        var header := got + [s.down[0]];
        assert Pow256(4) == 256 * Pow256(3) && Pow256(3) == 256 * Pow256(2) && Pow256(2) == 256 * Pow256(1);
        assert |header| == 4 ==> FromLe(header) < LENGTH_LIMIT;
      case ReadChunk(len, i, _) => ChunkFacts(len, i);
      case WriteAck(len, i, _, _) =>
        ChunkFacts(len, i);
        if i < LastChunk(len) { ChunkFacts(len, i + 1); }
      case _ =>
    }
  }

  /** A payload of 2^32 bytes or more is never delivered: its length does not fit the header. */
  lemma {:induction false} OversizedNeverDelivered(c: Config, states: seq<State>, actions: seq<Action>, i: nat)
    requires Run(c, states, actions) && i < |states|
    ensures ShortReceiver(states[i].receiver)
    ensures |c.payload| >= LENGTH_LIMIT ==> states[i].receiver != Received(c.payload)
  {
    if i == 0 {
    } else {
      OversizedNeverDelivered(c, states, actions, i - 1);
      assert Next(c, states[i - 1], actions[i - 1]) == Some(states[i - 1 + 1]);
      ShortKept(c, states[i - 1], actions[i - 1]);
    }
  }
}
