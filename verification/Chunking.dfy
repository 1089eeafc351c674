/**
 How the loader cuts the source map into chunks under a size limit.
 */
module Chunking {
  import opened Arena

  /** Allowed for the overhead of a chunk. */
  const CHUNK_OVERHEAD := 50

  function Flatten(chunks: seq<seq<Record>>): seq<Record>
  {
    if chunks == [] then [] else chunks[0] + Flatten(chunks[1..])
  }

  /** The estimated size of entries: key, value and ten bytes of delimiter each. */
  function Estimate(entries: seq<Record>): nat
  {
    if entries == [] then 0 else Estimate(entries[..|entries| - 1]) + Additional(entries[|entries| - 1])
  }

  /**
   The counter the code compares with the limit. When a chunk is started the counter is
   reset without adding the entry that started it, so every chunk but the first has its
   first entry for free.
   */
  function Charged(index: nat, chunk: seq<Record>): (n: nat)
    ensures n >= CHUNK_OVERHEAD
  {
    CHUNK_OVERHEAD + if index == 0 || chunk == [] then Estimate(chunk) else Estimate(chunk) - Free(chunk)
  }

  function Free(chunk: seq<Record>): (n: nat)
    requires chunk != []
    ensures n <= Estimate(chunk)
  {
    FirstCounted(chunk);
    Additional(chunk[0])
  }

  lemma {:induction false} FirstCounted(chunk: seq<Record>)
    requires chunk != []
    ensures Additional(chunk[0]) <= Estimate(chunk)
  {
    if |chunk| <= 1 {
    } else {
      FirstCounted(chunk[..|chunk| - 1]);
    }
  }

  /** A chunk within the limit: nothing charged beyond the overhead, or not more than the limit. */
  predicate WithinLimit(index: nat, chunk: seq<Record>, limit: nat)
  {
    || Charged(index, chunk) == CHUNK_OVERHEAD
    || Charged(index, chunk) <= limit
  }

  /** Chunks end only where the next entry would exceed the limit. */
  predicate BreakForced(index: nat, chunk: seq<Record>, next: seq<Record>, limit: nat)
  {
    next != [] && Charged(index, chunk) + Additional(next[0]) > limit
  }

  /** What one more entry adds to the counter. */
  lemma ChargedMore(index: nat, chunk: seq<Record>, e: Record)
    ensures Charged(index, chunk + [e]) ==
            if index > 0 && chunk == [] then CHUNK_OVERHEAD else Charged(index, chunk) + Additional(e)
  {
    var more := chunk + [e];
    assert more[..|more| - 1] == chunk && more[|more| - 1] == e;
    assert Estimate(more) == Estimate(chunk) + Additional(e);
    assert more[0] == if chunk == [] then e else chunk[0];
  }

  /** The chunking as the code does it: `current` is being filled, `rest` is still to come. */
  function Greedy(index: nat, current: seq<Record>, rest: seq<Record>, limit: nat): (chunks: seq<seq<Record>>)
    ensures chunks != [] && current <= chunks[0]
    decreases |rest|
  {
    if rest == [] then [current]
    else if Charged(index, current) + Additional(rest[0]) > limit then
      [current] + Greedy(index + 1, [rest[0]], rest[1..], limit)
    else Greedy(index, current + [rest[0]], rest[1..], limit)
  }

  function Chunks(source: seq<Record>, limit: nat): seq<seq<Record>>
  {
    Greedy(0, [], source, limit)
  }

  /** Cuts the source, in whatever order its entries come, into chunks. */
  method ChunkUpLookupData(source: seq<Record>, limit: nat) returns (chunks: seq<seq<Record>>)
    ensures chunks == Chunks(source, limit)
  {
    hide Charged;
    chunks := [];
    var estimated := CHUNK_OVERHEAD;
    var entries := [];
    ChargedNothing();
    var i := 0;
    while i < |source|
      invariant 0 <= i <= |source| && estimated == Charged(|chunks|, entries)
      invariant chunks != [] ==> entries != []
      invariant chunks + Greedy(|chunks|, entries, source[i..], limit) == Chunks(source, limit)
    {
      var entry := source[i];
      assert source[i..][0] == entry && source[i..][1..] == source[i + 1..];
      estimated := estimated + 10 + |entry.key| + |entry.value|;
      ChargedMore(|chunks|, entries, entry);
      if estimated > limit {
        chunks := chunks + [entries];
        estimated := CHUNK_OVERHEAD;
        entries := [];
        ChargedMore(|chunks|, [], entry);
        assert [] + [entry] == [entry];
      }
      entries := entries + [entry];
      i := i + 1;
    }
    assert source[i..] == [];
    chunks := chunks + [entries];
  }

  lemma ChargedNothing()
    ensures Charged(0, []) == CHUNK_OVERHEAD
  {
  }

  lemma {:induction false} ChargedPrefix(index: nat, chunk: seq<Record>, n: nat)
    requires n <= |chunk|
    ensures Charged(index, chunk[..n]) <= Charged(index, chunk)
    decreases |chunk| - n
  {
    if n < |chunk| {
      ChargedMore(index, chunk[..n], chunk[n]);
      assert chunk[..n + 1] == chunk[..n] + [chunk[n]];
      ChargedPrefix(index, chunk, n + 1);
    } else {
      assert chunk[..n] == chunk;
    }
  }

  /** What the code gives, for chunks that come after `index` others. */
  predicate ChunkedFrom(index: nat, chunks: seq<seq<Record>>, limit: nat)
  {
    && (forall i | 0 <= i < |chunks| :: WithinLimit(index + i, chunks[i], limit))
    && (forall i | 0 < i < |chunks| :: BreakForced(index + i - 1, chunks[i - 1], chunks[i], limit))
    && (index > 0 && chunks != [] ==> chunks[0] != [])
  }

  lemma ChunkedTail(index: nat, chunks: seq<seq<Record>>, limit: nat)
    requires chunks != [] && ChunkedFrom(index, chunks, limit)
    ensures ChunkedFrom(index + 1, chunks[1..], limit)
  {
    var rest := chunks[1..];
    forall i | 0 <= i < |rest| ensures WithinLimit(index + 1 + i, rest[i], limit) {
      assert WithinLimit(index + (i + 1), chunks[i + 1], limit);
    }
    forall i | 0 < i < |rest| ensures BreakForced(index + 1 + i - 1, rest[i - 1], rest[i], limit) {
      assert BreakForced(index + (i + 1) - 1, chunks[i + 1 - 1], chunks[i + 1], limit);
    }
    assert |chunks| > 1 ==> BreakForced(index + 1 - 1, chunks[0], chunks[1], limit);
  }

  /** A chunk cannot end before another valid first chunk of the same entries does. */
  lemma FirstNotShorter(index: nat, a: seq<seq<Record>>, b: seq<seq<Record>>, limit: nat)
    requires a != [] && b != [] && ChunkedFrom(index, a, limit) && ChunkedFrom(index, b, limit)
    requires Flatten(a) == Flatten(b)
    ensures |a[0]| >= |b[0]|
  {
    hide Charged;
    var n := |a[0]|;
    assert a[0] + Flatten(a[1..]) == b[0] + Flatten(b[1..]);
    assert WithinLimit(index + 0, b[0], limit);
    if |a| == 1 { assert a[0] + Flatten(a[1..]) == a[0]; }
    if n < |b[0]| {
      assert BreakForced(index + 1 - 1, a[0], a[1], limit);
      assert Flatten(a[1..]) == a[1] + Flatten(a[1..][1..]);
      assert (a[0] + Flatten(a[1..]))[n] == a[1][0] && (b[0] + Flatten(b[1..]))[n] == b[0][n];
      assert a[0] == (a[0] + Flatten(a[1..]))[..n] == (b[0] + Flatten(b[1..]))[..n] == b[0][..n];
      ChargedMore(index, a[0], a[1][0]);
      assert b[0][..n + 1] == a[0] + [a[1][0]];
      ChargedPrefix(index, b[0], n + 1);
    }
  }

  lemma {:induction false} UniqueFrom(index: nat, a: seq<seq<Record>>, b: seq<seq<Record>>, limit: nat)
    requires ChunkedFrom(index, a, limit) && ChunkedFrom(index, b, limit)
    requires Flatten(a) == Flatten(b) && (index == 0 ==> a != [] && b != [])
    ensures a == b
    decreases |a|
  {
    hide WithinLimit, BreakForced;
    if a == [] || b == [] {
      assert a == [] == b;
    } else {
      FirstNotShorter(index, a, b, limit);
      FirstNotShorter(index, b, a, limit);
      assert a[0] == Flatten(a)[..|a[0]|] == b[0];
      assert Flatten(a[1..]) == Flatten(a)[|a[0]|..] == Flatten(b[1..]);
      ChunkedTail(index, a, limit);
      ChunkedTail(index, b, limit);
      UniqueFrom(index + 1, a[1..], b[1..], limit);
      assert a == [a[0]] + a[1..] && b == [b[0]] + b[1..];
    }
  }

  lemma ChunkedCons(index: nat, chunk: seq<Record>, rest: seq<seq<Record>>, limit: nat)
    requires WithinLimit(index, chunk, limit) && (index > 0 ==> chunk != [])
    requires ChunkedFrom(index + 1, rest, limit) && (rest != [] ==> BreakForced(index, chunk, rest[0], limit))
    ensures ChunkedFrom(index, [chunk] + rest, limit)
  {
    hide WithinLimit, BreakForced;
    var all := [chunk] + rest;
    forall i | 0 <= i < |all| ensures WithinLimit(index + i, all[i], limit) {
      if i > 0 { assert WithinLimit(index + 1 + (i - 1), rest[i - 1], limit); }
    }
    forall i | 0 < i < |all| ensures BreakForced(index + i - 1, all[i - 1], all[i], limit) {
      if i > 1 { assert BreakForced(index + 1 + (i - 1) - 1, rest[i - 1 - 1], rest[i - 1], limit); }
    }
  }

  lemma ChunkedOne(index: nat, chunk: seq<Record>, limit: nat)
    requires WithinLimit(index, chunk, limit) && (index > 0 ==> chunk != [])
    ensures ChunkedFrom(index, [chunk], limit)
  {
    assert [chunk][0] == chunk;
  }

  lemma {:induction false} GreedyChunked(index: nat, current: seq<Record>, rest: seq<Record>, limit: nat)
    requires WithinLimit(index, current, limit) && (index > 0 ==> current != [])
    ensures ChunkedFrom(index, Greedy(index, current, rest, limit), limit)
    decreases |rest|
  {
    hide Charged, ChunkedFrom;
    if rest == [] {
      ChunkedOne(index, current, limit);
    } else {
      var e, tail := rest[0], Greedy(index + 1, [rest[0]], rest[1..], limit);
      ChargedMore(index, current, e);
      ChargedMore(index + 1, [], e);
      assert [] + [e] == [e];
      if Charged(index, current) + Additional(e) > limit {
        GreedyChunked(index + 1, [e], rest[1..], limit);
        assert tail[0][0] == e;
        ChunkedCons(index, current, tail, limit);
      } else {
        GreedyChunked(index, current + [e], rest[1..], limit);
      }
    }
  }

  lemma {:induction false} GreedyFlat(index: nat, current: seq<Record>, rest: seq<Record>, limit: nat)
    ensures Flatten(Greedy(index, current, rest, limit)) == current + rest
    decreases |rest|
  {
    hide Charged;
    if rest == [] {
      assert [current][1..] == [] && Flatten([current]) == current;
    } else if Charged(index, current) + Additional(rest[0]) > limit {
      var tail := Greedy(index + 1, [rest[0]], rest[1..], limit);
      GreedyFlat(index + 1, [rest[0]], rest[1..], limit);
      assert ([current] + tail)[1..] == tail;
    } else {
      GreedyFlat(index, current + [rest[0]], rest[1..], limit);
      assert current + [rest[0]] + rest[1..] == current + rest;
    }
  }

  /**
   The chunks hold the source entries in order, without loss or duplication; what is
   charged to each is within the limit, and none ends before it has to. There is only
   one such chunking.
   */
  lemma ChunksExactly(source: seq<Record>, limit: nat, chunks: seq<seq<Record>>)
    requires chunks != []
    ensures chunks == Chunks(source, limit) <==> Flatten(chunks) == source && ChunkedFrom(0, chunks, limit)
  {
    hide ChunkedFrom, Flatten, Greedy;
    EmptyWithin(limit);
    GreedyChunked(0, [], source, limit);
    GreedyFlat(0, [], source, limit);
    assert [] + source == source;
    if Flatten(chunks) == source && ChunkedFrom(0, chunks, limit) {
      UniqueFrom(0, chunks, Chunks(source, limit), limit);
    }
  }

  lemma EmptyWithin(limit: nat)
    ensures WithinLimit(0, [], limit)
  {
  }

  /** A whole chunk exceeds the limit, or the fixed overhead, by its first entry at most. */
  lemma OvershootBound(chunks: seq<seq<Record>>, limit: nat, i: nat)
    requires ChunkedFrom(0, chunks, limit) && i < |chunks| && chunks[i] != []
    ensures CHUNK_OVERHEAD + Estimate(chunks[i]) <=
            (if limit < CHUNK_OVERHEAD then CHUNK_OVERHEAD else limit) + Additional(chunks[i][0])
    ensures i == 0 ==> CHUNK_OVERHEAD + Estimate(chunks[i]) <= limit
  {
    assert WithinLimit(0 + i, chunks[i], limit);
    FirstCounted(chunks[i]);
  }

  // When the limit itself is kept.

  lemma {:induction false} EstimateSum(a: seq<Record>, b: seq<Record>)
    ensures Estimate(a + b) == Estimate(a) + Estimate(b)
    decreases |b|
  {
    if b == [] {
      assert a + b == a;
    } else {
      var n := |b| - 1;
      EstimateSum(a, b[..n]);
      assert (a + b)[..|a + b| - 1] == a + b[..n];
    }
  }

  lemma EstimateOne(e: Record)
    ensures Estimate([e]) == Additional(e)
  {
    assert [e][..0] == [];
  }

  /** Some chunk, estimated as a whole, is over the limit. */
  ghost predicate Exceeds(source: seq<Record>, limit: nat)
  {
    exists i | 0 <= i < |Chunks(source, limit)| :: CHUNK_OVERHEAD + Estimate(Chunks(source, limit)[i]) > limit
  }

  /** Two disjoint parts of the source each fit a chunk, but neither does together with entry `e`. */
  ghost predicate Straddles(source: seq<Record>, limit: nat,
                            a: seq<Record>, e: Record, b: seq<Record>, rest: seq<Record>)
  {
    && multiset(a + [e] + b + rest) == multiset(source)
    && CHUNK_OVERHEAD + Estimate(a) <= limit < CHUNK_OVERHEAD + Estimate(a) + Additional(e)
    && CHUNK_OVERHEAD + Estimate(b) <= limit < CHUNK_OVERHEAD + Estimate(b) + Additional(e)
  }

  /** The part of a chunk that is charged to it. */
  function ChargedPart(index: nat, chunk: seq<Record>): seq<Record>
  {
    if index == 0 || chunk == [] then chunk else chunk[1..]
  }

  lemma ChargedPartEstimate(index: nat, chunk: seq<Record>)
    ensures CHUNK_OVERHEAD + Estimate(ChargedPart(index, chunk)) == Charged(index, chunk)
  {
    if index > 0 && chunk != [] {
      assert chunk == [chunk[0]] + chunk[1..];
      EstimateSum([chunk[0]], chunk[1..]);
      EstimateOne(chunk[0]);
    }
  }

  lemma {:induction false} FlattenSplit(chunks: seq<seq<Record>>, k: nat)
    requires k <= |chunks|
    ensures Flatten(chunks) == Flatten(chunks[..k]) + Flatten(chunks[k..])
    decreases k
  {
    if k == 0 {
      assert chunks[0..] == chunks;
    } else {
      FlattenSplit(chunks[1..], k - 1);
      assert chunks[1..][..k - 1] == chunks[..k][1..] && chunks[1..][k - 1..] == chunks[k..];
    }
  }

  lemma {:induction false} SameEntries(chunks: seq<seq<Record>>, i: nat, a: seq<Record>, free: seq<Record>)
    requires 0 < i < |chunks| && chunks[i - 1] == free + a && chunks[i] != []
    ensures var rest := Flatten(chunks[..i - 1]) + free + Flatten(chunks[i + 1..]);
            multiset(a + [chunks[i][0]] + chunks[i][1..] + rest) == multiset(Flatten(chunks))
  {
    hide Flatten;
    FlattenSplit(chunks, i - 1);
    FlattenStep(chunks, i - 1);
    FlattenStep(chunks, i);
    assert chunks[i] == [chunks[i][0]] + chunks[i][1..];
  }

  /** An exceeded limit has a straddling entry behind it: the one that started the chunk. */
  lemma ExceedsStraddles(order: seq<Record>, limit: nat)
    returns (a: seq<Record>, e: Record, b: seq<Record>, rest: seq<Record>)
    requires limit >= CHUNK_OVERHEAD && Exceeds(order, limit)
    ensures Straddles(order, limit, a, e, b, rest)
  {
    hide Charged, Greedy, Estimate, Flatten;
    var chunks := Chunks(order, limit);
    EmptyWithin(limit);
    GreedyChunked(0, [], order, limit);
    GreedyFlat(0, [], order, limit);
    assert [] + order == order;
    var i :| 0 <= i < |chunks| && CHUNK_OVERHEAD + Estimate(chunks[i]) > limit;
    assert WithinLimit(0 + i, chunks[i], limit);
    ChargedPartEstimate(i, chunks[i]);
    assert i > 0;
    assert WithinLimit(0 + (i - 1), chunks[i - 1], limit);
    assert BreakForced(0 + i - 1, chunks[i - 1], chunks[i], limit);
    ChargedPartEstimate(i - 1, chunks[i - 1]);
    a, e, b := ChargedPart(i - 1, chunks[i - 1]), chunks[i][0], chunks[i][1..];
    assert chunks[i] == [e] + b;
    EstimateSum([e], b);
    EstimateOne(e);
    var free := chunks[i - 1][..|chunks[i - 1]| - |a|];
    rest := Flatten(chunks[..i - 1]) + free + Flatten(chunks[i + 1..]);
    SameEntries(chunks, i, a, free);
  }

  /** Entries that fit are added to the current chunk one after the other. */
  lemma {:induction false} GreedyFits(index: nat, current: seq<Record>, more: seq<Record>, rest: seq<Record>,
                                      limit: nat)
    requires index == 0 || current != []
    requires Charged(index, current) + Estimate(more) <= limit
    ensures Greedy(index, current, more + rest, limit) == Greedy(index, current + more, rest, limit)
    decreases |more|
  {
    hide Charged;
    if more == [] {
      assert more + rest == rest && current + more == current;
    } else {
      var e, tail := more[0], more[1..];
      assert more == [e] + tail && (more + rest)[1..] == tail + rest && (more + rest)[0] == e;
      EstimateSum([e], tail);
      EstimateOne(e);
      ChargedMore(index, current, e);
      GreedyFits(index, current + [e], tail, rest, limit);
      assert current + [e] + tail == current + more;
    }
  }

  lemma StraddledChunks(a: seq<Record>, e: Record, b: seq<Record>, rest: seq<Record>, limit: nat)
    requires CHUNK_OVERHEAD + Estimate(a) <= limit < CHUNK_OVERHEAD + Estimate(a) + Additional(e)
    requires CHUNK_OVERHEAD + Estimate(b) <= limit
    ensures Chunks(a + [e] + b + rest, limit) == [a] + Greedy(1, [e] + b, rest, limit)
  {
    hide Charged, Estimate;
    ChargedNothing();
    ChargedPartEstimate(0, a);
    ChargedPartEstimate(1, [e]);
    var tail := [e] + (b + rest);
    assert [e][1..] == [] && [] + a == a && tail[0] == e && tail[1..] == b + rest;
    EstimateNothing();
    assert a + [e] + b + rest == a + tail;
    GreedyFits(0, [], a, tail, limit);
    GreedyFits(1, [e], b, rest, limit);
  }

  lemma EstimateNothing()
    ensures Estimate([]) == 0
  {
  }

  /** A straddling entry can be met in an order that makes the second chunk exceed the limit. */
  lemma StraddlesExceeds(source: seq<Record>, limit: nat, a: seq<Record>, e: Record, b: seq<Record>, rest: seq<Record>)
    requires Straddles(source, limit, a, e, b, rest)
    ensures Exceeds(a + [e] + b + rest, limit)
  {
    hide Charged, Estimate, Chunks;
    StraddledChunks(a, e, b, rest, limit);
    var chunk := Greedy(1, [e] + b, rest, limit)[0];
    var more := chunk[1 + |b|..];
    assert chunk == [e] + b + more;
    EstimateSum([e] + b, more);
    EstimateSum([e], b);
    EstimateOne(e);
    assert Chunks(a + [e] + b + rest, limit)[1] == chunk;
  }

  /**
   The source comes in no particular order. Some order of it makes a chunk exceed the
   limit exactly when the limit is below the fixed overhead, or some entry straddles: two
   disjoint parts of the others fit a chunk by themselves, and neither does together with
   that entry.
   */
  lemma LimitKeptExactly(source: seq<Record>, limit: nat)
    ensures (exists order :: multiset(order) == multiset(source) && Exceeds(order, limit)) <==>
            limit < CHUNK_OVERHEAD || exists a, e, b, rest :: Straddles(source, limit, a, e, b, rest)
  {
    if limit < CHUNK_OVERHEAD {
      assert CHUNK_OVERHEAD + Estimate(Chunks(source, limit)[0]) > limit;
      assert Exceeds(source, limit);
    } else if order :| multiset(order) == multiset(source) && Exceeds(order, limit) {
      var a, e, b, rest := ExceedsStraddles(order, limit);
      assert Straddles(source, limit, a, e, b, rest);
    }
    if a, e, b, rest :| Straddles(source, limit, a, e, b, rest) {
      StraddlesExceeds(source, limit, a, e, b, rest);
    }
  }

  /** The limit is not always kept: three entries of eleven bytes, with a limit of 61. */
  lemma LimitCanBeExceeded()
    ensures var a, b, c := Record([1], []), Record([2], []), Record([3], []);
            Straddles([a, b, c], 61, [a], b, [c], []) && Exceeds([a, b, c], 61)
  {
    var a, b, c := Record([1], []), Record([2], []), Record([3], []);
    EstimateOne(a);
    EstimateOne(c);
    assert [a] + [b] + [c] + [] == [a, b, c];
    StraddlesExceeds([a, b, c], 61, [a], b, [c], []);
  }

  lemma FlattenStep(chunks: seq<seq<Record>>, i: nat)
    requires i < |chunks|
    ensures Flatten(chunks[i..]) == chunks[i] + Flatten(chunks[i + 1..])
  {
    assert chunks[i..][1..] == chunks[i + 1..];
  }

  lemma FlattenEnd()
    ensures Flatten([]) == []
  {
  }
}
