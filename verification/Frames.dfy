/** Messages, the frames they are cut into, and the invocation channel that carries them. */
module Frames {
  import opened Bytes

  const PADDING_SIZE := 4
  const BODY_OFFSET := 8
  const MAX_SIZE := 4000
  const MAX_BODY_SIZE := 3992
  const MESSAGE_BODY_OFFSET := 8

  type uint32 = n: int | 0 <= n < 0x1_0000_0000

  /** A request or a response; both have the same encoding. */
  datatype Message = Message(invocationId: uint32, body: seq<byte>)

  datatype Frame = Frame(start: bool, end: bool, body: seq<byte>)

  datatype Error = Eof | FrameTooSmall | FrameTooLarge | ExpectedStart | SecondStart

  /** What reading yields: a value and the bytes behind it, an error, or a panic. */
  datatype Parsed<T> = Got(value: T, rest: seq<byte>) | Failed(error: Error) | Panicked

  /** The length header counts the whole message; longer messages do not fit it and panic. */
  predicate Encodable(m: Message)
  {
    MESSAGE_BODY_OFFSET + |m.body| < 0x1_0000_0000
  }

  function EncodeMessage(m: Message): (s: seq<byte>)
    ensures |s| == MESSAGE_BODY_OFFSET + |m.body|
  {
    LeBytes(MESSAGE_BODY_OFFSET + |m.body|, 4) + LeBytes(m.invocationId, 4) + m.body
  }

  function Uint32At(s: seq<byte>, at: nat): (n: uint32)
    requires at + 4 <= |s|
  {
    assert Pow256(4) == 256 * Pow256(3) && Pow256(3) == 256 * Pow256(2) && Pow256(2) == 256 * Pow256(1);
    FromLe(s[at..at + 4])
  }

  function DecodeMessage(s: seq<byte>): Message
    requires |s| >= MESSAGE_BODY_OFFSET
  {
    Message(Uint32At(s, 4), s[MESSAGE_BODY_OFFSET..])
  }

  lemma MessageRoundTrip(m: Message)
    requires Encodable(m)
    ensures DecodeMessage(EncodeMessage(m)) == m
    ensures Uint32At(EncodeMessage(m), 0) == |EncodeMessage(m)|
  {
    var s := EncodeMessage(m);
    assert Pow256(4) == 256 * Pow256(3) && Pow256(3) == 256 * Pow256(2) && Pow256(2) == 256 * Pow256(1);
    LeRoundTrip(MESSAGE_BODY_OFFSET + |m.body|, 4);
    LeRoundTrip(m.invocationId, 4);
    assert s[0..4] == LeBytes(MESSAGE_BODY_OFFSET + |m.body|, 4);
    assert s[4..8] == LeBytes(m.invocationId, 4);
    assert s[8..] == m.body;
  }

  function FlagBits(f: Frame): nat
  {
    (if f.start then 1 else 0) + (if f.end then 2 else 0)
  }

  /** The frame layer's own limits on a body. */
  predicate FrameOk(f: Frame)
  {
    0 < |f.body| <= MAX_BODY_SIZE
  }

  function EncodeFrame(f: Frame): (s: seq<byte>)
    ensures |s| == BODY_OFFSET + |f.body|
  {
    [0, 0, 0, 0] + LeBytes(BODY_OFFSET + |f.body|, 2) + LeBytes(FlagBits(f), 2) + f.body
  }

  /** `read_frame`: padding and unknown flags are ignored, the length is checked. */
  function ParseFrame(s: seq<byte>): (r: Parsed<Frame>)
    ensures r.Got? ==> FrameOk(r.value) && |r.rest| == |s| - BODY_OFFSET - |r.value.body|
  {
    if |s| < 6 then Failed(Eof)
    else
      var length := FromLe(s[4..6]);
      if length <= BODY_OFFSET then Failed(FrameTooSmall)
      else if length > MAX_SIZE then Failed(FrameTooLarge)
      else if |s| < length then Failed(Eof)
      else
        var flags := FromLe(s[6..8]);
        Got(Frame(flags % 2 == 1, flags / 2 % 2 == 1, s[8..length]), s[length..])
  }

  lemma FrameRoundTrip(f: Frame, rest: seq<byte>)
    requires FrameOk(f)
    ensures ParseFrame(EncodeFrame(f) + rest) == Got(f, rest)
    ensures EncodeFrame(f)[..4] == [0, 0, 0, 0] && FromLe(EncodeFrame(f)[6..8]) < 4
  {
    var s, n := EncodeFrame(f) + rest, BODY_OFFSET + |f.body|;
    assert Pow256(2) == 256 * Pow256(1) && Pow256(1) == 256 * Pow256(0);
    LeRoundTrip(n, 2);
    LeRoundTrip(FlagBits(f), 2);
    assert s[4..6] == LeBytes(n, 2);
    assert s[6..8] == LeBytes(FlagBits(f), 2);
    assert EncodeFrame(f)[6..8] == s[6..8];
    assert s[8..n] == f.body;
    assert s[n..] == rest;
  }

  /** The frames after the first: appended until one carries the END flag. */
  function ParseRest(s: seq<byte>, buffer: seq<byte>): Parsed<seq<byte>>
    decreases |s|
  {
    match ParseFrame(s)
    case Failed(e) => Failed(e)
    case Panicked => Panicked
    case Got(f, rest) =>
      if f.start then Failed(SecondStart)
      else if f.end then Got(buffer + f.body, rest)
      else ParseRest(rest, buffer + f.body)
  }

  /** The length header of the first frame leaves room for the capacity subtraction. */
  predicate HeaderUsable(body: seq<byte>)
  {
    |body| >= 4 && Uint32At(body, 0) >= MAX_BODY_SIZE
  }

  /** The bytes of one message, reassembled from its frames. */
  function Reassemble(s: seq<byte>): Parsed<seq<byte>>
  {
    match ParseFrame(s)
    case Failed(e) => Failed(e)
    case Panicked => Panicked
    case Got(f, rest) =>
      if !f.start then Failed(ExpectedStart)
      else if f.end then Got(f.body, rest)
      else if !HeaderUsable(f.body) then Panicked
      else ParseRest(rest, f.body)
  }

  /** `read_message`; a message shorter than its header panics. */
  function ParseMessage(s: seq<byte>): Parsed<Message>
  {
    match Reassemble(s)
    case Failed(e) => Failed(e)
    case Panicked => Panicked
    case Got(bytes, rest) => if |bytes| < MESSAGE_BODY_OFFSET then Panicked else Got(DecodeMessage(bytes), rest)
  }

  /** `bytes_into_frames` for nonempty data: START on the first frame, END on the last. */
  function FramesOf(data: seq<byte>, start: bool): (fs: seq<Frame>)
    decreases |data|
    ensures fs != []
  {
    if |data| <= MAX_BODY_SIZE then [Frame(start, true, data)]
    else [Frame(start, false, data[..MAX_BODY_SIZE])] + FramesOf(data[MAX_BODY_SIZE..], false)
  }

  function EncodeFrames(fs: seq<Frame>): seq<byte>
  {
    if fs == [] then [] else EncodeFrame(fs[0]) + EncodeFrames(fs[1..])
  }

  function Bodies(fs: seq<Frame>): seq<byte>
  {
    if fs == [] then [] else fs[0].body + Bodies(fs[1..])
  }

  /** What goes over the wire for a message. */
  function Wire(m: Message): seq<byte>
  {
    EncodeFrames(FramesOf(EncodeMessage(m), true))
  }

  /** A proper framing: legal bodies, START exactly on the first frame and END on the last. */
  ghost predicate Framing(fs: seq<Frame>, start: bool)
  {
    && fs != []
    && (forall i | 0 <= i < |fs| :: FrameOk(fs[i]))
    && (forall i | 0 <= i < |fs| :: fs[i].start == (start && i == 0))
    && (forall i | 0 <= i < |fs| :: fs[i].end == (i == |fs| - 1))
  }

  lemma {:induction false} FramesOfData(data: seq<byte>, start: bool)
    requires data != []
    ensures Framing(FramesOf(data, start), start)
    ensures Bodies(FramesOf(data, start)) == data
    ensures |data| > MAX_BODY_SIZE ==> FramesOf(data, start)[0].body == data[..MAX_BODY_SIZE]
    ensures |FramesOf(data, start)| == 1 <==> |data| <= MAX_BODY_SIZE
    decreases |data|
  {
    var fs := FramesOf(data, start);
    if |data| > MAX_BODY_SIZE {
      var rest := FramesOf(data[MAX_BODY_SIZE..], false);
      FramesOfData(data[MAX_BODY_SIZE..], false);
      assert fs[1..] == rest;
      assert forall i | 1 <= i < |fs| :: fs[i] == rest[i - 1];
    } else {
      assert fs[1..] == [] && Bodies([]) == [];
    }
  }

  lemma FramingTail(fs: seq<Frame>, start: bool)
    requires Framing(fs, start) && |fs| > 1
    ensures Framing(fs[1..], false)
  {
  }

  lemma {:induction false} FirstFrame(fs: seq<Frame>, rest: seq<byte>)
    requires fs != []
    ensures EncodeFrames(fs) + rest == EncodeFrame(fs[0]) + (EncodeFrames(fs[1..]) + rest)
    ensures Bodies(fs) == fs[0].body + Bodies(fs[1..])
    ensures |fs| == 1 ==> EncodeFrames(fs[1..]) + rest == rest && Bodies(fs) == fs[0].body
  {
    hide EncodeFrame;
    if |fs| == 1 { assert fs[1..] == []; }
  }

  /** The bytes are the frame, whatever the padding and the fourteen unused flags. */
  predicate Reads(s: seq<byte>, f: Frame)
  {
    && |s| == BODY_OFFSET + |f.body|
    && s[4..6] == LeBytes(BODY_OFFSET + |f.body|, 2)
    && (f.start <==> FromLe(s[6..8]) % 2 == 1) && (f.end <==> FromLe(s[6..8]) / 2 % 2 == 1)
    && s[8..] == f.body
  }

  /** The frame parser accepts exactly what starts with a legal frame. */
  lemma ParsesExactly(s: seq<byte>, f: Frame, rest: seq<byte>)
    ensures ParseFrame(s) == Got(f, rest) <==>
            && FrameOk(f) && BODY_OFFSET + |f.body| <= |s|
            && Reads(s[..BODY_OFFSET + |f.body|], f) && s[BODY_OFFSET + |f.body|..] == rest
  {
    assert Pow256(2) == 256 * Pow256(1) && Pow256(1) == 256 * Pow256(0);
    hide LeBytes, FromLe, Pow256;
    var n := BODY_OFFSET + |f.body|;
    if n <= |s| {
      var head := s[..n];
      assert head[4..6] == s[4..6] && head[6..8] == s[6..8] && head[8..] == s[8..n];
      LeBack(s[4..6]);
      if FrameOk(f) { LeRoundTrip(n, 2); }
    }
  }

  /** The bytes are the frames one after the other, and then `rest`. */
  ghost predicate ReadsAll(s: seq<byte>, fs: seq<Frame>, rest: seq<byte>)
    decreases |fs|
  {
    if fs == [] then s == rest
    else
      var n := BODY_OFFSET + |fs[0].body|;
      n <= |s| && Reads(s[..n], fs[0]) && ReadsAll(s[n..], fs[1..], rest)
  }

  lemma {:induction false} RestFrames(s: seq<byte>, buffer: seq<byte>, bytes: seq<byte>, rest: seq<byte>)
    returns (fs: seq<Frame>)
    requires ParseRest(s, buffer) == Got(bytes, rest)
    ensures Framing(fs, false) && ReadsAll(s, fs, rest) && bytes == buffer + Bodies(fs)
    decreases |s|
  {
    hide ParseFrame, Reads;
    var first := ParseFrame(s);
    var f, n := first.value, BODY_OFFSET + |first.value.body|;
    ParsesExactly(s, f, first.rest);
    if f.end {
      fs := [f];
      assert fs[1..] == [] && Bodies(fs) == f.body;
    } else {
      var more := RestFrames(first.rest, buffer + f.body, bytes, rest);
      fs := [f] + more;
      assert fs[1..] == more;
      assert forall i | 1 <= i < |fs| :: fs[i] == more[i - 1];
      assert buffer + f.body + Bodies(more) == buffer + (f.body + Bodies(more));
    }
  }

  lemma {:induction false} RestParses(s: seq<byte>, fs: seq<Frame>, buffer: seq<byte>, rest: seq<byte>)
    requires Framing(fs, false) && ReadsAll(s, fs, rest)
    ensures ParseRest(s, buffer) == Got(buffer + Bodies(fs), rest)
    decreases |fs|
  {
    hide ParseFrame, Reads;
    var n := BODY_OFFSET + |fs[0].body|;
    ParsesExactly(s, fs[0], s[n..]);
    if |fs| == 1 {
      assert fs[1..] == [] && Bodies(fs) == fs[0].body;
    } else {
      FramingTail(fs, false);
      RestParses(s[n..], fs[1..], buffer + fs[0].body, rest);
      assert buffer + fs[0].body + Bodies(fs[1..]) == buffer + (fs[0].body + Bodies(fs[1..]));
    }
  }

  lemma UsableExactly(body: seq<byte>)
    ensures HeaderUsable(body) <==> |body| >= 4 && FromLe(body[..4]) >= MAX_BODY_SIZE
  {
    if |body| >= 4 { assert body[0..4] == body[..4]; }
  }

  /** A framing that the reader can follow to the end without the capacity subtraction underflowing. */
  ghost predicate Readable(s: seq<byte>, fs: seq<Frame>, bytes: seq<byte>, rest: seq<byte>)
  {
    && Framing(fs, true) && (|fs| > 1 ==> |fs[0].body| >= 4 && FromLe(fs[0].body[..4]) >= MAX_BODY_SIZE)
    && ReadsAll(s, fs, rest) && Bodies(fs) == bytes
  }

  /** The reader reassembles exactly the proper framings: what it returns are the bodies of one. */
  lemma ReassemblesExactly(s: seq<byte>, bytes: seq<byte>, rest: seq<byte>)
    ensures Reassemble(s) == Got(bytes, rest) <==> exists fs :: Readable(s, fs, bytes, rest)
  {
    hide ParseFrame, Reads, HeaderUsable, Framing, ReadsAll;
    if Reassemble(s) == Got(bytes, rest) {
      var fs := Reassembled(s, bytes, rest);
      assert Readable(s, fs, bytes, rest);
    }
    if fs :| Readable(s, fs, bytes, rest) {
      ReadableReassembles(s, fs, bytes, rest);
    }
  }

  lemma Reassembled(s: seq<byte>, bytes: seq<byte>, rest: seq<byte>) returns (fs: seq<Frame>)
    requires Reassemble(s) == Got(bytes, rest)
    ensures Readable(s, fs, bytes, rest)
  {
    hide ParseFrame, Reads, HeaderUsable, ParseRest;
    var first := ParseFrame(s);
    var f := first.value;
    UsableExactly(f.body);
    ParsesExactly(s, f, first.rest);
    if f.end {
      fs := [f];
      assert fs[1..] == [] && Bodies(fs) == f.body;
    } else {
      var more := RestFrames(first.rest, f.body, bytes, rest);
      fs := [f] + more;
      assert fs[1..] == more;
      assert forall i | 1 <= i < |fs| :: fs[i] == more[i - 1];
    }
    assert Framing(fs, true) && ReadsAll(s, fs, rest);
  }

  lemma ReadableReassembles(s: seq<byte>, fs: seq<Frame>, bytes: seq<byte>, rest: seq<byte>)
    requires Readable(s, fs, bytes, rest)
    ensures Reassemble(s) == Got(bytes, rest)
  {
    hide ParseFrame, Reads, HeaderUsable, ParseRest;
    var n := BODY_OFFSET + |fs[0].body|;
    ParsesExactly(s, fs[0], s[n..]);
    UsableExactly(fs[0].body);
    if |fs| == 1 {
      assert fs[1..] == [] && Bodies(fs) == fs[0].body;
      assert ReadsAll(s[n..], [], rest);
    } else {
      FramingTail(fs, true);
      RestParses(s[n..], fs[1..], fs[0].body, rest);
    }
  }

  /** The frames after the first are never the cause of a panic. */
  lemma {:induction false} RestNeverPanics(s: seq<byte>, buffer: seq<byte>)
    ensures !ParseRest(s, buffer).Panicked?
    decreases |s|
  {
    var first := ParseFrame(s);
    if first.Got? && !first.value.start && !first.value.end {
      RestNeverPanics(first.rest, buffer + first.value.body);
    }
  }

  /** The stream starts with a START frame that is not the last and whose header is of no use. */
  ghost predicate UnusableStart(s: seq<byte>, f: Frame)
  {
    var n := BODY_OFFSET + |f.body|;
    && f.start && !f.end && FrameOk(f) && n <= |s| && Reads(s[..n], f)
    && (|f.body| < 4 || FromLe(f.body[..4]) < MAX_BODY_SIZE)
  }

  /** A proper framing that ends before the header of the message does. */
  ghost predicate ShortMessage(s: seq<byte>, fs: seq<Frame>, bytes: seq<byte>, rest: seq<byte>)
  {
    Readable(s, fs, bytes, rest) && |bytes| < MESSAGE_BODY_OFFSET
  }

  /** Reading a message panics exactly on these two kinds of streams. */
  lemma PanicsExactly(s: seq<byte>)
    ensures ParseMessage(s).Panicked? <==>
            || (exists f :: UnusableStart(s, f))
            || (exists fs, bytes, rest :: ShortMessage(s, fs, bytes, rest))
  {
    hide ParseFrame, Reads, HeaderUsable, ParseRest, Readable;
    StartPanicsExactly(s);
    if ParseMessage(s).Panicked? && Reassemble(s).Got? {
      var bytes, rest := Reassemble(s).value, Reassemble(s).rest;
      var fs := Reassembled(s, bytes, rest);
      assert ShortMessage(s, fs, bytes, rest);
    }
    if fs, bytes, rest :| ShortMessage(s, fs, bytes, rest) {
      ReadableReassembles(s, fs, bytes, rest);
    }
  }

  lemma StartPanicsExactly(s: seq<byte>)
    ensures Reassemble(s).Panicked? <==> exists f :: UnusableStart(s, f)
  {
    hide ParseFrame, Reads, HeaderUsable, ParseRest;
    FrameNeverPanics(s);
    if ParseFrame(s).Got? {
      var first := ParseFrame(s);
      ParsesExactly(s, first.value, first.rest);
      RestNeverPanics(first.rest, first.value.body);
      UsableExactly(first.value.body);
      if Reassemble(s).Panicked? { assert UnusableStart(s, first.value); }
    }
    if f :| UnusableStart(s, f) {
      ParsesExactly(s, f, s[BODY_OFFSET + |f.body|..]);
      UsableExactly(f.body);
    }
  }

  lemma FrameNeverPanics(s: seq<byte>)
    ensures !ParseFrame(s).Panicked?
  {
  }

  /** Exactly which error a frame is refused with: too short, by the bytes that are there, or a bad length. */
  lemma FrameFailsExactly(s: seq<byte>)
    ensures ParseFrame(s) == Failed(FrameTooSmall) <==> |s| >= 6 && FromLe(s[4..6]) <= 8
    ensures ParseFrame(s) == Failed(FrameTooLarge) <==> |s| >= 6 && FromLe(s[4..6]) > 4000
    ensures ParseFrame(s) == Failed(Eof) <==> |s| < 6 || (8 < FromLe(s[4..6]) <= 4000 && |s| < FromLe(s[4..6]))
    ensures ParseFrame(s) != Failed(ExpectedStart) && ParseFrame(s) != Failed(SecondStart)
  {
    hide FromLe;
  }

  /** Frames of the middle of a message. */
  ghost predicate Middle(fs: seq<Frame>)
  {
    forall i | 0 <= i < |fs| :: FrameOk(fs[i]) && !fs[i].start && !fs[i].end
  }

  /** The stream does not go on with a frame of the message: it is refused, or starts another one. */
  ghost predicate BreaksOff(s: seq<byte>, e: Error)
  {
    || ParseFrame(s) == Failed(e)
    || (e == SecondStart && exists f, rest :: ParseFrame(s) == Got(f, rest) && f.start)
  }

  /** Middle frames and then a stream that breaks off. */
  ghost predicate BreaksOffAfter(s: seq<byte>, fs: seq<Frame>, tail: seq<byte>, e: Error)
  {
    Middle(fs) && ReadsAll(s, fs, tail) && BreaksOff(tail, e)
  }

  lemma {:induction false} RestBreaksOff(s: seq<byte>, buffer: seq<byte>, e: Error)
    returns (fs: seq<Frame>, tail: seq<byte>)
    requires ParseRest(s, buffer) == Failed(e)
    ensures BreaksOffAfter(s, fs, tail, e)
    decreases |s|
  {
    hide ParseFrame, Reads;
    var first := ParseFrame(s);
    if first.Failed? || first.value.start {
      fs, tail := [], s;
    } else {
      var f := first.value;
      ParsesExactly(s, f, first.rest);
      var more;
      more, tail := RestBreaksOff(first.rest, buffer + f.body, e);
      fs := [f] + more;
      assert fs[1..] == more;
      assert forall i | 1 <= i < |fs| :: fs[i] == more[i - 1];
    }
  }

  lemma {:induction false} BrokenOffFails(s: seq<byte>, buffer: seq<byte>, fs: seq<Frame>, tail: seq<byte>, e: Error)
    requires BreaksOffAfter(s, fs, tail, e)
    ensures ParseRest(s, buffer) == Failed(e)
    decreases |fs|
  {
    hide ParseFrame, Reads;
    if fs == [] {
    } else {
      var n := BODY_OFFSET + |fs[0].body|;
      ParsesExactly(s, fs[0], s[n..]);
      BrokenOffFails(s[n..], buffer + fs[0].body, fs[1..], tail, e);
    }
  }

  /** A first frame that starts a message of several, with a usable header. */
  ghost predicate Opens(s: seq<byte>, f: Frame, rest: seq<byte>)
  {
    ParseFrame(s) == Got(f, rest) && f.start && !f.end && HeaderUsable(f.body)
  }

  /**
   Exactly when and with which error reading fails: in the first frame, or because it has
   no START flag; or, behind a first frame and any middle frames, in the next one, or
   because that has a START flag.
   */
  lemma FailsExactly(s: seq<byte>, e: Error)
    ensures ParseMessage(s) == Failed(e) <==>
            || ParseFrame(s) == Failed(e)
            || (e == ExpectedStart && ParseFrame(s).Got? && !ParseFrame(s).value.start)
            || (exists f, rest, fs, tail :: Opens(s, f, rest) && BreaksOffAfter(rest, fs, tail, e))
  {
    hide ParseFrame, HeaderUsable, ParseRest, BreaksOffAfter;
    FrameNeverPanics(s);
    if ParseMessage(s) == Failed(e) && ParseFrame(s).Got? && ParseFrame(s).value.start {
      var first := ParseFrame(s);
      var fs, tail := RestBreaksOff(first.rest, first.value.body, e);
      assert Opens(s, first.value, first.rest);
    }
    if f, rest, fs, tail :| Opens(s, f, rest) && BreaksOffAfter(rest, fs, tail, e) {
      BrokenOffFails(rest, f.body, fs, tail, e);
    }
  }

  /** A stream that panics: one START frame with a body of one byte, whether it is the last or not. */
  lemma OneByteMessagePanics(last: bool, x: byte, rest: seq<byte>)
    ensures ParseMessage(EncodeFrame(Frame(true, last, [x])) + rest).Panicked?
  {
    FrameRoundTrip(Frame(true, last, [x]), rest);
  }

  lemma {:induction false} EncodedReads(fs: seq<Frame>, rest: seq<byte>)
    requires forall i | 0 <= i < |fs| :: FrameOk(fs[i])
    ensures ReadsAll(EncodeFrames(fs) + rest, fs, rest)
    decreases |fs|
  {
    hide EncodeFrame, ParseFrame, Reads;
    if fs == [] {
      assert EncodeFrames(fs) + rest == rest;
    } else {
      var tail := EncodeFrames(fs[1..]) + rest;
      FirstFrame(fs, rest);
      FrameRoundTrip(fs[0], tail);
      ParsesExactly(EncodeFrames(fs) + rest, fs[0], tail);
      EncodedReads(fs[1..], rest);
    }
  }

  /** Any proper framing, not only the writer's, is reassembled to the bodies in order. */
  lemma AnyFramingReassembles(fs: seq<Frame>, rest: seq<byte>)
    requires Framing(fs, true) && (|fs| > 1 ==> HeaderUsable(fs[0].body))
    ensures Reassemble(EncodeFrames(fs) + rest) == Got(Bodies(fs), rest)
  {
    hide EncodeFrames, Bodies, ReadsAll, Reassemble, HeaderUsable;
    EncodedReads(fs, rest);
    UsableExactly(fs[0].body);
    ReadableReassembles(EncodeFrames(fs) + rest, fs, Bodies(fs), rest);
  }

  /**
   What the writer puts on the wire is read back as the same message, whatever follows,
   and the capacity subtraction does not underflow on the way.
   */
  lemma WireRoundTrip(m: Message, rest: seq<byte>)
    requires Encodable(m)
    ensures Reassemble(Wire(m) + rest) == Got(EncodeMessage(m), rest)
    ensures ParseMessage(Wire(m) + rest) == Got(m, rest)
  {
    var data := EncodeMessage(m);
    var fs := FramesOf(data, true);
    FramesOfData(data, true);
    MessageRoundTrip(m);
    if |fs| > 1 { assert fs[0].body[0..4] == data[0..4]; }
    hide EncodeMessage, EncodeFrames, Reassemble, FramesOf, DecodeMessage;
    AnyFramingReassembles(fs, rest);
  }

  function WireAll(ms: seq<Message>): seq<byte>
  {
    if ms == [] then [] else Wire(ms[0]) + WireAll(ms[1..])
  }

  /** Reads `n` messages in a row. */
  function ParseAll(s: seq<byte>, n: nat): Parsed<seq<Message>>
    decreases n
  {
    if n == 0 then Got([], s)
    else
      match ParseMessage(s)
      case Failed(e) => Failed(e)
      case Panicked => Panicked
      case Got(m, rest) =>
        match ParseAll(rest, n - 1)
        case Failed(e) => Failed(e)
        case Panicked => Panicked
        case Got(ms, end) => Got([m] + ms, end)
  }

  /** Any messages written one after the other are read back in order, to the last byte. */
  lemma {:induction false} StreamRoundTrip(ms: seq<Message>, rest: seq<byte>)
    requires forall m | m in ms :: Encodable(m)
    ensures ParseAll(WireAll(ms) + rest, |ms|) == Got(ms, rest)
  {
    hide Wire, ParseMessage;
    if ms == [] {
      assert WireAll(ms) + rest == rest;
    } else {
      var tail := WireAll(ms[1..]) + rest;
      assert WireAll(ms) + rest == Wire(ms[0]) + tail;
      WireRoundTrip(ms[0], tail);
      StreamRoundTrip(ms[1..], rest);
      assert [ms[0]] + ms[1..] == ms;
    }
  }

  /** The byte channel underneath, as a queue; reading past its end is an error. */
  class Channel {
    var inner: seq<byte>

    constructor (inner: seq<byte>)
      ensures this.inner == inner
    {
      this.inner := inner;
    }

    method ReadExact(n: nat) returns (r: Option<seq<byte>>)
      modifies this
      ensures old(|inner|) < n ==> r.None?
      ensures old(|inner|) >= n ==> r == Some(old(inner)[..n]) && inner == old(inner)[n..]
    {
      if |inner| < n {
        return None;
      }
      r := Some(inner[..n]);
      inner := inner[n..];
    }

    method WriteAll(data: seq<byte>)
      modifies this
      ensures inner == old(inner) + data
    {
      inner := inner + data;
    }

    /** Reads a frame and appends its body to the message buffer. */
    method ReadFrame(buffer: seq<byte>) returns (r: Parsed<Frame>, appended: seq<byte>)
      modifies this
      ensures r == ParseFrame(old(inner))
      ensures r.Got? ==> inner == r.rest && appended == buffer + r.value.body
    {
      appended := buffer;
      var padding := ReadExact(PADDING_SIZE);
      if padding.None? {
        return Failed(Eof), appended;
      }
      var lengthBytes := ReadExact(2);
      if lengthBytes.None? {
        return Failed(Eof), appended;
      }
      assert lengthBytes.value == old(inner)[4..6];
      var length := FromLe(lengthBytes.value);
      if length <= BODY_OFFSET {
        return Failed(FrameTooSmall), appended;
      }
      if length > MAX_SIZE {
        return Failed(FrameTooLarge), appended;
      }
      var flagBytes := ReadExact(2);
      if flagBytes.None? {
        return Failed(Eof), appended;
      }
      assert flagBytes.value == old(inner)[6..8];
      var flags := FromLe(flagBytes.value);
      var body := ReadExact(length - BODY_OFFSET);
      if body.None? {
        return Failed(Eof), appended;
      }
      assert body.value == old(inner)[8..length] && inner == old(inner)[length..];
      appended := buffer + body.value;
      r := Got(Frame(flags % 2 == 1, flags / 2 % 2 == 1, body.value), inner);
    }

    /** Reads frames until a whole message has been reassembled. */
    method ReadMessage() returns (r: Parsed<Message>)
      modifies this
      ensures r == ParseMessage(old(inner))
      ensures r.Got? ==> inner == r.rest
    {
      hide ParseFrame;
      var first, buffer := ReadFrame([]);
      if first.Failed? {
        return Failed(first.error);
      }
      if first.Panicked? {
        return Panicked;
      }
      assert buffer == first.value.body;
      if !first.value.start {
        return Failed(ExpectedStart);
      }
      if !first.value.end {
        if !HeaderUsable(first.value.body) {
          return Panicked;
        }
        ghost var want := ParseRest(inner, buffer);
        var done := false;
        while !done
          invariant !done ==> ParseRest(inner, buffer) == want
          invariant done ==> want == Got(buffer, inner)
          decreases !done, |inner|
        {
          var next;
          next, buffer := ReadFrame(buffer);
          if next.Failed? {
            return Failed(next.error);
          }
          if next.Panicked? {
            return Panicked;
          }
          if next.value.start {
            return Failed(SecondStart);
          }
          done := next.value.end;
        }
      }
      if |buffer| < MESSAGE_BODY_OFFSET {
        return Panicked;
      }
      return Got(DecodeMessage(buffer), inner);
    }

    /** Encodes the message, cuts it into frames and writes them in order. */
    method WriteMessage(m: Message) returns (r: Outcome<()>)
      modifies this
      ensures r.Panic? <==> !Encodable(m)
      ensures r.Done? ==> inner == old(inner) + Wire(m)
    {
      hide EncodeMessage, EncodeFrame, FramesOf;
      if !Encodable(m) {
        return Panic;
      }
      var maybeFrames := BytesIntoFrames(EncodeMessage(m));
      var frames, i := maybeFrames.value, 0;
      while i < |frames|
        invariant 0 <= i <= |frames|
        invariant inner + EncodeFrames(frames[i..]) == old(inner) + EncodeFrames(frames)
      {
        assert frames[i..][0] == frames[i] && frames[i..][1..] == frames[i + 1..];
        WriteAll(EncodeFrame(frames[i]));
        i := i + 1;
      }
      assert EncodeFrames(frames[i..]) == [];
      return Done(());
    }
  }

  /** Cuts the data into bodies, then marks the first and the last frame; empty data is an error. */
  method BytesIntoFrames(data: seq<byte>) returns (r: Option<seq<Frame>>)
    ensures r == if data == [] then None else Some(FramesOf(data, true))
  {
    hide Unmarked, StillUnmarked, FramesOf;
    if data == [] {
      return None;
    }
    var frames, at := [], 0;
    CutNothing(data);
    assert data[0..] == data && data[|data|..] == [];
    while at < |data|
      invariant 0 <= at <= |data|
      invariant frames + StillUnmarked(data[at..]) == Unmarked(data)
    {
      var stop := if at + MAX_BODY_SIZE < |data| then at + MAX_BODY_SIZE else |data|;
      CutOne(data, at, stop);
      frames := frames + [Frame(false, false, data[at..stop])];
      at := stop;
    }
    assert frames == frames + [] == Unmarked(data);
    Marked(data);
    frames := frames[0 := frames[0].(start := true)];
    var last := |frames| - 1;
    frames := frames[last := frames[last].(end := true)];
    return Some(frames);
  }

  /** Writes the messages in order. */
  method WriteAllMessages(channel: Channel, ms: seq<Message>)
    requires forall m | m in ms :: Encodable(m)
    modifies channel
    ensures channel.inner == old(channel.inner) + WireAll(ms)
  {
    hide Wire, WireAll;
    var i := 0;
    assert ms[0..] == ms;
    while i < |ms|
      invariant 0 <= i <= |ms| && channel.inner + WireAll(ms[i..]) == old(channel.inner) + WireAll(ms)
    {
      FirstMessage(ms, i);
      ghost var before := channel.inner;
      var written := channel.WriteMessage(ms[i]);
      assert channel.inner + WireAll(ms[i + 1..]) == before + (Wire(ms[i]) + WireAll(ms[i + 1..]));
      i := i + 1;
    }
    NoMessages();
    assert ms[i..] == [];
  }

  /** Reads `n` messages, which are on the wire. */
  method ReadAllMessages(channel: Channel, n: nat, ghost ms: seq<Message>) returns (back: seq<Message>)
    requires n == |ms| && channel.inner == WireAll(ms) && forall m | m in ms :: Encodable(m)
    modifies channel
    ensures back == ms && channel.inner == []
  {
    hide Wire, WireAll, ParseMessage;
    var i := 0;
    back := [];
    assert ms[0..] == ms;
    while i < n
      invariant 0 <= i <= n && back == ms[..i] && channel.inner == WireAll(ms[i..])
    {
      FirstMessage(ms, i);
      WireRoundTrip(ms[i], WireAll(ms[i + 1..]));
      var r := channel.ReadMessage();
      back := back + [r.value];
      i := i + 1;
    }
    NoMessages();
    assert ms[i..] == [];
  }

  /** Writes all messages to an empty channel and reads as many back. */
  method WriteThenRead(channel: Channel, ms: seq<Message>) returns (back: seq<Message>)
    requires channel.inner == [] && forall m | m in ms :: Encodable(m)
    modifies channel
    ensures back == ms && channel.inner == []
  {
    hide WireAll;
    WriteAllMessages(channel, ms);
    assert channel.inner == WireAll(ms);
    back := ReadAllMessages(channel, |ms|, ms);
  }

  lemma FirstMessage(ms: seq<Message>, i: nat)
    requires i < |ms|
    ensures WireAll(ms[i..]) == Wire(ms[i]) + WireAll(ms[i + 1..])
  {
    hide Wire;
    assert ms[i..][0] == ms[i] && ms[i..][1..] == ms[i + 1..];
  }

  lemma NoMessages()
    ensures WireAll([]) == []
  {
  }

  /** The frames before their flags are set. */
  function Unmarked(data: seq<byte>): (fs: seq<Frame>)
    decreases |data|
    ensures fs != []
  {
    if |data| <= MAX_BODY_SIZE then [Frame(false, false, data)]
    else [Frame(false, false, data[..MAX_BODY_SIZE])] + Unmarked(data[MAX_BODY_SIZE..])
  }

  function StillUnmarked(data: seq<byte>): seq<Frame>
  {
    if data == [] then [] else Unmarked(data)
  }

  lemma CutNothing(data: seq<byte>)
    ensures StillUnmarked([]) == [] && (data != [] ==> StillUnmarked(data) == Unmarked(data))
  {
  }

  lemma CutOne(data: seq<byte>, at: nat, stop: nat)
    requires at < |data| && stop == if at + MAX_BODY_SIZE < |data| then at + MAX_BODY_SIZE else |data|
    ensures StillUnmarked(data[at..]) == [Frame(false, false, data[at..stop])] + StillUnmarked(data[stop..])
  {
    assert data[at..][..stop - at] == data[at..stop];
    if stop < |data| {
      assert data[at..][MAX_BODY_SIZE..] == data[stop..];
    } else {
      assert data[at..] == data[at..stop];
    }
  }

  lemma {:induction false} LastMarked(data: seq<byte>)
    ensures var fs, last := Unmarked(data), |Unmarked(data)| - 1;
            FramesOf(data, false) == fs[last := fs[last].(end := true)]
    decreases |data|
  {
    if |data| <= MAX_BODY_SIZE {
    } else {
      LastMarked(data[MAX_BODY_SIZE..]);
    }
  }

  lemma Marked(data: seq<byte>)
    ensures var fs := Unmarked(data);
            var one := fs[0 := fs[0].(start := true)];
            FramesOf(data, true) == one[|fs| - 1 := one[|fs| - 1].(end := true)]
  {
    if |data| > MAX_BODY_SIZE { LastMarked(data[MAX_BODY_SIZE..]); }
  }
}
