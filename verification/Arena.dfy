/**
 The append-only record arena of the lookup table: equally sized chunks of bytes,
 addressed by one data index whose quotient by the chunk size selects the chunk and
 whose remainder is the offset inside it.
 */
module Arena {
  import opened Bytes
  import opened LenCode

  /** Data indices are stored in five bytes. */
  const INDEX_SIZE := 5
  const INDEX_LIMIT := 0x100_0000_0000

  datatype Record = Record(key: seq<byte>, value: seq<byte>)

  /** The layout of one record: key length, key, value length, value. */
  function Encode(r: Record): (s: seq<byte>)
  {
    EncodeLen(|r.key|) + r.key + EncodeLen(|r.value|) + r.value
  }

  predicate Storable(r: Record)
  {
    |r.key| < LEN_LIMIT && |r.value| < LEN_LIMIT
  }

  /** The slice expressions of the key reader stay inside the chunk. */
  predicate KeyReadable(chunk: seq<byte>, index: nat)
  {
    LenReadable(chunk, index) &&
    var (len, size) := ReadLen(chunk, index);
    index + size + len <= |chunk|
  }

  function KeyIn(chunk: seq<byte>, index: nat): (key: seq<byte>)
    requires KeyReadable(chunk, index)
  {
    var (len, size) := ReadLen(chunk, index);
    chunk[index + size..index + size + len]
  }

  predicate ValueReadable(chunk: seq<byte>, index: nat)
  {
    LenReadable(chunk, index) &&
    var (len, size) := ReadLen(chunk, index);
    KeyReadable(chunk, index + size + len)
  }

  function ValueIn(chunk: seq<byte>, index: nat): (value: seq<byte>)
    requires ValueReadable(chunk, index)
  {
    var (len, size) := ReadLen(chunk, index);
    KeyIn(chunk, index + size + len)
  }

  predicate StoredAt(chunk: seq<byte>, index: nat, r: Record)
  {
    index + |Encode(r)| <= |chunk| && chunk[index..index + |Encode(r)|] == Encode(r)
  }

  /** A stored record is at most eight bytes longer than its key and value. */
  lemma EncodedSize(r: Record)
    requires Storable(r)
    ensures |r.key| + |r.value| + 2 <= |Encode(r)| <= |r.key| + |r.value| + 8
  {
    ExtraBytesBound(|r.key|);
    ExtraBytesBound(|r.value|);
  }

  lemma ReadsField(chunk: seq<byte>, index: nat, field: seq<byte>)
    requires |field| < LEN_LIMIT
    requires index + |EncodeLen(|field|)| + |field| <= |chunk|
    requires chunk[index..index + |EncodeLen(|field|)| + |field|] == EncodeLen(|field|) + field
    ensures LenReadable(chunk, index) && ReadLen(chunk, index) == (|field|, |EncodeLen(|field|)|)
    ensures KeyReadable(chunk, index) && KeyIn(chunk, index) == field
  {
    var n := |EncodeLen(|field|)|;
    var both := chunk[index..index + n + |field|];
    assert chunk[index..index + n] == both[..n] == EncodeLen(|field|);
    assert chunk[index + n..index + n + |field|] == both[n..] == field;
    ReadsBack(chunk, index, |field|);
  }

  lemma SliceOfSum(data: seq<byte>, at: nat, p: seq<byte>, q: seq<byte>)
    requires at + |p| + |q| <= |data| && data[at..at + |p| + |q|] == p + q
    ensures data[at..at + |p|] == p
    ensures data[at + |p|..at + |p| + |q|] == q
  {
    var both := data[at..at + |p| + |q|];
    assert data[at..at + |p|] == both[..|p|];
    assert data[at + |p|..at + |p| + |q|] == both[|p|..];
  }

  /** Reading a stored record returns its key and its value, byte for byte. */
  lemma ReadsRecord(chunk: seq<byte>, index: nat, r: Record)
    requires Storable(r) && StoredAt(chunk, index, r)
    ensures KeyReadable(chunk, index) && KeyIn(chunk, index) == r.key
    ensures ValueReadable(chunk, index) && ValueIn(chunk, index) == r.value
  {
    var keyPart, valuePart := EncodeLen(|r.key|) + r.key, EncodeLen(|r.value|) + r.value;
    assert Encode(r) == keyPart + valuePart;
    SliceOfSum(chunk, index, keyPart, valuePart);
    ReadsField(chunk, index, r.key);
    ReadsField(chunk, index + |keyPart|, r.value);
  }

  /** A chunk and an offset inside it. */
  datatype Position = Position(chunk: nat, offset: nat)

  /** The position a data index denotes, with chunks of the given size. */
  function Locate(i: nat, size: nat): (p: Position)
    requires size > 0
    ensures p.offset < size
  {
    Position(i / size, i % size)
  }

  predicate Live(arena: seq<seq<byte>>, p: Position, r: Record)
  {
    p.chunk < |arena| && Storable(r) && StoredAt(arena[p.chunk], p.offset, r)
  }

  /** Two records occupy no byte in common. */
  predicate Apart(p: Position, r: Record, q: Position, s: Record)
  {
    || p.chunk != q.chunk
    || p.offset + |Encode(r)| <= q.offset
    || q.offset + |Encode(s)| <= p.offset
  }

  ghost predicate AllLive(arena: seq<seq<byte>>, records: map<Position, Record>)
  {
    forall p | p in records :: Live(arena, p, records[p]) && p != Position(0, 0)
  }

  /** Records in the last chunk end at `fill` or before. */
  ghost predicate AllBefore(last: int, fill: nat, records: map<Position, Record>)
  {
    forall p | p in records && p.chunk == last :: p.offset + |Encode(records[p])| <= fill
  }

  ghost predicate AllApart(records: map<Position, Record>)
  {
    forall p, q | p in records && q in records && p != q :: Apart(p, records[p], q, records[q])
  }

  /**
   What holds between insertions, with `fill` the first free offset in the last
   chunk: all records written so far are readable, no two overlap, none lies behind
   `fill`, and the very first byte is never used.
   */
  ghost predicate ArenaOk(arena: seq<seq<byte>>, size: nat, fill: nat, records: map<Position, Record>)
  {
    && (forall c | 0 <= c < |arena| :: |arena[c]| == size)
    && AllLive(arena, records)
    && AllBefore(|arena| - 1, fill, records)
    && AllApart(records)
  }

  /** The next free data index is offset `fill` of the last of `n` chunks. */
  predicate UsedOk(n: nat, size: nat, used: nat, fill: nat)
  {
    if n == 0 then used == 1 && fill == 0 else used == (n - 1) * size + fill && 0 < fill < size
  }

  /** The bytes set aside for a record: two length codes of at most five bytes each. */
  function Additional(r: Record): nat
  {
    2 * INDEX_SIZE + |r.key| + |r.value|
  }

  /** The chunk the end of the record would fall in. */
  function TargetChunk(size: nat, used: nat, r: Record): nat
    requires size > 0
  {
    (used + Additional(r)) / size
  }

  /** Whether writing the record panics, with `n` chunks allocated. */
  predicate DoesNotFit(n: nat, size: nat, r: Record)
  {
    Additional(r) >= size || (n == 0 && Additional(r) == size - 1)
  }

  /** Where the record goes: behind the last one, or at the start of a new chunk. */
  function Placement(n: nat, size: nat, used: nat, r: Record): (i: nat)
    requires size > 0
  {
    var c := TargetChunk(size, used, r);
    if c < n then used else if c == 0 then 1 else size * c
  }

  /** A record that fits is placed inside one chunk: the last one, or the next one. */
  lemma PlacedInOneChunk(n: nat, size: nat, used: nat, fill: nat, r: Record)
    requires size > 1 && UsedOk(n, size, used, fill) && Storable(r)
    requires !DoesNotFit(n, size, r)
    ensures var c, i := TargetChunk(size, used, r), Placement(n, size, used, r);
            && n - 1 <= c <= n
            && i > 0 && Locate(i, size) != Position(0, 0)
            && Locate(i, size).chunk == c
            && Locate(i, size).offset == (if c < n then fill else if c == 0 then 1 else 0)
            && Locate(i, size).offset + |Encode(r)| < size
            && UsedOk(c + 1, size, i + |Encode(r)|, Locate(i, size).offset + |Encode(r)|)
  {
    EncodedSize(r);
    var more, i := Additional(r), Placement(n, size, used, r);
    if n == 0 {
      Quotient(1 + more, size, 0, 1 + more);
      Quotient(1, size, 0, 1);
    } else if fill + more < size {
      Quotient(used + more, size, n - 1, fill + more);
      Quotient(used, size, n - 1, fill);
    } else {
      Quotient(used + more, size, n, fill + more - size);
      Quotient(size * n, size, n, 0);
    }
  }

  /** Exactly when the code indexes a chunk that does not exist, or its assertion fails. */
  lemma PanicsExactly(n: nat, size: nat, used: nat, fill: nat, r: Record)
    requires size > 1 && UsedOk(n, size, used, fill)
    ensures DoesNotFit(n, size, r) <==> Additional(r) >= size || TargetChunk(size, used, r) > n
    ensures DoesNotFit(n, size, r) <==>
            10 + |r.key| + |r.value| >= size || (n == 0 && 10 + |r.key| + |r.value| == size - 1)
  {
    var more := Additional(r);
    if n == 0 && more < size - 1 {
      Quotient(1 + more, size, 0, 1 + more);
    } else if n > 0 && more < size {
      if fill + more < size {
        Quotient(used + more, size, n - 1, fill + more);
      } else {
        Quotient(used + more, size, n, fill + more - size);
      }
    } else if more == size - 1 {
      Quotient(size, size, 1, 0);
    }
  }

  lemma SpliceBehind(chunk: seq<byte>, at: nat, patch: seq<byte>, index: nat, r: Record)
    requires at + |patch| <= |chunk| && StoredAt(chunk, index, r)
    requires index + |Encode(r)| <= at
    ensures StoredAt(Splice(chunk, at, patch), index, r)
  {
    var n := |Encode(r)|;
    assert Splice(chunk, at, patch)[index..index + n] == chunk[index..index + n];
  }

  /** The arena after one record has been written at position `p`. */
  function Written(arena: seq<seq<byte>>, p: Position, r: Record, zeroes: seq<byte>): (a: seq<seq<byte>>)
    requires p.chunk <= |arena|
    requires p.offset + |Encode(r)| <= |if p.chunk < |arena| then arena[p.chunk] else zeroes|
  {
    var grown := if p.chunk < |arena| then arena else arena + [zeroes];
    grown[p.chunk := Splice(grown[p.chunk], p.offset, Encode(r))]
  }

  lemma WrittenKeepsOther(arena: seq<seq<byte>>, p: Position, r: Record, zeroes: seq<byte>,
                          q: Position, other: Record)
    requires p.chunk <= |arena|
    requires p.offset + |Encode(r)| <= |if p.chunk < |arena| then arena[p.chunk] else zeroes|
    requires Live(arena, q, other)
    requires q.chunk == p.chunk ==> q.offset + |Encode(other)| <= p.offset
    ensures Live(Written(arena, p, r, zeroes), q, other)
  {
    if q.chunk == p.chunk {
      SpliceBehind(arena[p.chunk], p.offset, Encode(r), q.offset, other);
    }
  }

  /** A record at the first free offset, or in a new chunk, is behind every other. */
  lemma NewPosition(arena: seq<seq<byte>>, fill: nat, records: map<Position, Record>, p: Position, q: Position)
    requires AllLive(arena, records) && AllBefore(|arena| - 1, fill, records) && q in records
    requires |arena| - 1 <= p.chunk && (p.chunk < |arena| ==> p.offset == fill)
    ensures q != p
    ensures q.chunk == p.chunk ==> q.offset + |Encode(records[q])| <= p.offset
    ensures q.chunk <= p.chunk
  {
    assert Live(arena, q, records[q]);
    EncodedSize(records[q]);
  }

  lemma WritingKeepsLive(arena: seq<seq<byte>>, size: nat, fill: nat, records: map<Position, Record>,
                         p: Position, r: Record, zeroes: seq<byte>)
    requires AllLive(arena, records) && AllBefore(|arena| - 1, fill, records)
    requires forall c | 0 <= c < |arena| :: |arena[c]| == size
    requires Storable(r) && |zeroes| == size
    requires |arena| - 1 <= p.chunk <= |arena| && p.offset + |Encode(r)| <= size && p != Position(0, 0)
    requires p.chunk < |arena| ==> p.offset == fill
    ensures AllLive(Written(arena, p, r, zeroes), records[p := r])
  {
    var after := Written(arena, p, r, zeroes);
    forall q | q in records ensures Live(after, q, records[q]) {
      NewPosition(arena, fill, records, p, q);
      WrittenKeepsOther(arena, p, r, zeroes, q, records[q]);
    }
    assert Live(after, p, r);
  }

  lemma WritingKeepsApart(arena: seq<seq<byte>>, fill: nat, records: map<Position, Record>, p: Position, r: Record)
    requires AllLive(arena, records) && AllBefore(|arena| - 1, fill, records) && AllApart(records)
    requires |arena| - 1 <= p.chunk && (p.chunk < |arena| ==> p.offset == fill)
    ensures p !in records
    ensures AllApart(records[p := r])
    ensures AllBefore(p.chunk, p.offset + |Encode(r)|, records[p := r])
  {
    forall q | q in records
      ensures q != p && (q.chunk == p.chunk ==> q.offset + |Encode(records[q])| <= p.offset)
    {
      NewPosition(arena, fill, records, p, q);
    }
  }

  /**
   Writing a record at the first free offset, or at the start of a new chunk, keeps
   the arena invariant and adds exactly that record to the readable ones.
   */
  lemma WritingKeepsArena(arena: seq<seq<byte>>, size: nat, fill: nat, records: map<Position, Record>,
                          p: Position, r: Record, zeroes: seq<byte>)
    requires ArenaOk(arena, size, fill, records) && Storable(r) && |zeroes| == size
    requires |arena| - 1 <= p.chunk <= |arena| && p.offset + |Encode(r)| <= size && p != Position(0, 0)
    requires p.chunk < |arena| ==> p.offset == fill
    ensures p !in records
    ensures ArenaOk(Written(arena, p, r, zeroes), size, p.offset + |Encode(r)|, records[p := r])
  {
    WritingKeepsLive(arena, size, fill, records, p, r, zeroes);
    WritingKeepsApart(arena, fill, records, p, r);
  }

  /** What decides where the next record goes. */
  datatype Layout = Layout(chunks: nat, size: nat, used: nat)

  function Index(l: Layout, r: Record): nat
    requires l.size > 0
  {
    Placement(l.chunks, l.size, l.used, r)
  }

  function After(l: Layout, r: Record): (l': Layout)
    requires l.size > 0
    ensures l'.size == l.size && l'.chunks > 0
  {
    Layout(TargetChunk(l.size, l.used, r) + 1, l.size, Index(l, r) + |Encode(r)|)
  }

  /** Whether the record is refused with a panic. */
  predicate Refused(l: Layout, r: Record)
  {
    DoesNotFit(l.chunks, l.size, r)
  }

  /** The documented limits, for a record that is not refused: lengths below 1 GiB, and all data below 1 TiB. */
  predicate HasRoom(l: Layout, r: Record)
    requires l.size > 0
  {
    Refused(l, r) || (Storable(r) && Index(l, r) < INDEX_LIMIT)
  }

  /** The limits for a series, up to the first record that is refused. */
  ghost predicate HasRoomForAll(l: Layout, rs: seq<Record>)
    requires l.size > 0
    decreases |rs|
  {
    rs == [] || (HasRoom(l, rs[0]) && (Refused(l, rs[0]) || HasRoomForAll(After(l, rs[0]), rs[1..])))
  }

  ghost function AfterAll(l: Layout, rs: seq<Record>): (l': Layout)
    requires l.size > 0
    decreases |rs|
  {
    if rs == [] then l else AfterAll(After(l, rs[0]), rs[1..])
  }

  /** Some record of a series panics, each being placed after those before it. */
  ghost predicate SomeRefused(l: Layout, rs: seq<Record>)
    requires l.size > 0
    decreases |rs|
  {
    rs != [] && (Refused(l, rs[0]) || SomeRefused(After(l, rs[0]), rs[1..]))
  }

  /** Whether a series panics can be read off its lengths. */
  lemma {:induction false} RefusedExactly(l: Layout, rs: seq<Record>)
    requires l.size > 0
    ensures SomeRefused(l, rs) <==>
            || (exists i | 0 <= i < |rs| :: Additional(rs[i]) >= l.size)
            || (l.chunks == 0 && rs != [] && Additional(rs[0]) == l.size - 1)
    decreases |rs|
  {
    if rs == [] {
    } else {
      RefusedExactly(After(l, rs[0]), rs[1..]);
      if exists i | 0 <= i < |rs| :: Additional(rs[i]) >= l.size {
        var i :| 0 <= i < |rs| && Additional(rs[i]) >= l.size;
        if i > 0 { assert rs[1..][i - 1] == rs[i]; }
      }
    }
  }

  function TotalAdditional(rs: seq<Record>): nat
  {
    if rs == [] then 0 else Additional(rs[0]) + TotalAdditional(rs[1..])
  }

  lemma IndexBound(l: Layout, r: Record)
    requires l.size > 1
    ensures Index(l, r) <= l.used + Additional(r)
  {
    var end := l.used + Additional(r);
    assert end / l.size * l.size <= end;
  }

  /** Half the address range of data is always enough room, however the chunks fall. */
  lemma {:induction false} RoomEnough(l: Layout, rs: seq<Record>)
    requires l.size > 1 && (forall r | r in rs :: Storable(r))
    requires l.used + 2 * TotalAdditional(rs) < INDEX_LIMIT
    ensures HasRoomForAll(l, rs)
    decreases |rs|
  {
    if rs == [] {
    } else {
      IndexBound(l, rs[0]);
      EncodedSize(rs[0]);
      RoomEnough(After(l, rs[0]), rs[1..]);
    }
  }
}
