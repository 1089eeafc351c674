/**
 Linear probing with wrap-around, over a table in which each slot is empty or holds
 a key. The hash is any function of the key and the table's secret.
 */
module Probe {
  import opened Bytes

  type Key = seq<byte>
  type Hash = (Key, uint64) -> uint64
  type Slots = seq<Option<Key>>

  lemma ProductBelow(h: nat, limit: nat, n: nat)
    requires h < limit && n > 0
    ensures h * n < limit * n
  {
    assert (limit - h) * n > 0;
  }

  /** Maps a 64-bit hash to a table index by multiply and shift. */
  function Reduce(h: uint64, n: nat): (i: nat)
    requires n > 0
    ensures i < n
    ensures i * 0x1_0000_0000_0000_0000 <= h * n < (i + 1) * 0x1_0000_0000_0000_0000
  {
    ProductBelow(h, 0x1_0000_0000_0000_0000, n);
    var product: nat := h * n;
    product / 0x1_0000_0000_0000_0000
  }

  /** The lowest byte of the upper half of the hash. */
  function HashByte(h: uint64): (b: byte)
    ensures var upper := h / 0x1_0000_0000; upper == 256 * (upper / 256) + b
  {
    h / 0x1_0000_0000 % 256
  }

  function Home(hash: Hash, secret: uint64, key: Key, n: nat): (i: nat)
    requires n > 0
    ensures i < n
  {
    Reduce(hash(key, secret), n)
  }

  /** The slot after `i`, wrapping around. */
  function Next(i: nat, n: nat): (j: nat)
    requires i < n
    ensures j < n
  {
    if i + 1 == n then 0 else i + 1
  }

  /** The slot `d` steps after `home`. */
  function At(home: nat, d: nat, n: nat): (i: nat)
    requires home < n && d < n
    ensures i < n
  {
    if home + d < n then home + d else home + d - n
  }

  /** How many steps lead from `home` to slot `i`. */
  function Steps(home: nat, i: nat, n: nat): (d: nat)
    requires home < n && i < n
    ensures d < n && At(home, d, n) == i
  {
    if home <= i then i - home else i + n - home
  }

  /** The first `d` slots from `home` on are all taken. */
  ghost predicate PathFull(slots: Slots, home: nat, d: nat)
    requires home < |slots| && d <= |slots|
  {
    forall e | 0 <= e < d :: slots[At(home, e, |slots|)].Some?
  }

  ghost predicate Distinct(slots: Slots)
  {
    forall i, j | 0 <= i < j < |slots| && slots[i].Some? && slots[j].Some? :: slots[i] != slots[j]
  }

  /** Every key can be reached from its home slot without crossing an empty slot. */
  ghost predicate Reachable(slots: Slots, hash: Hash, secret: uint64)
  {
    forall i | 0 <= i < |slots| && slots[i].Some? ::
      var home := Home(hash, secret, slots[i].value, |slots|);
      PathFull(slots, home, Steps(home, i, |slots|))
  }

  ghost function Taken(slots: Slots): set<nat>
  {
    set i: nat | i < |slots| && slots[i].Some?
  }

  ghost predicate ProbeOk(slots: Slots, hash: Hash, secret: uint64)
  {
    Distinct(slots) && Reachable(slots, hash, secret)
  }

  lemma KeysDistinct(slots: Slots, hash: Hash, secret: uint64)
    requires ProbeOk(slots, hash, secret)
    ensures Distinct(slots)
  {
  }

  lemma {:induction false} FullTable(slots: Slots)
    requires forall i | 0 <= i < |slots| :: slots[i].Some?
    ensures |Taken(slots)| == |slots|
  {
    if slots == [] {
    } else {
      var n := |slots| - 1;
      FullTable(slots[..n]);
      assert Taken(slots) == Taken(slots[..n]) + {n};
    }
  }

  /** A table that is not full has an empty slot ahead of every home slot. */
  lemma EmptyAhead(slots: Slots, home: nat) returns (d: nat)
    requires home < |slots| && |Taken(slots)| < |slots|
    ensures d < |slots| && slots[At(home, d, |slots|)].None?
  {
    if forall i | 0 <= i < |slots| :: slots[i].Some? {
      FullTable(slots);
    }
    var i: nat :| i < |slots| && slots[i].None?;
    d := Steps(home, i, |slots|);
  }

  /** The search has passed `d` slots, all taken, none by the key. */
  ghost predicate Passed(slots: Slots, home: nat, key: Key, d: nat)
    requires home < |slots| && d <= |slots|
  {
    forall e | 0 <= e < d :: slots[At(home, e, |slots|)].Some? && slots[At(home, e, |slots|)] != Some(key)
  }

  lemma NonePassed(slots: Slots, home: nat, key: Key)
    requires home < |slots|
    ensures Passed(slots, home, key, 0)
  {
  }

  /** Passing a slot leads closer to the empty slot `stop` steps from home. */
  lemma OnePassed(slots: Slots, home: nat, key: Key, d: nat, stop: nat)
    requires home < |slots| && d <= stop < |slots| && Passed(slots, home, key, d)
    requires slots[At(home, d, |slots|)].Some? && slots[At(home, d, |slots|)] != Some(key)
    requires slots[At(home, stop, |slots|)].None?
    ensures d < stop && Passed(slots, home, key, d + 1)
    ensures At(home, d + 1, |slots|) == Next(At(home, d, |slots|), |slots|)
  {
  }

  /** The search may stop at the first empty slot: the key is nowhere in the table. */
  lemma MissIsFinal(slots: Slots, hash: Hash, secret: uint64, key: Key, d: nat)
    requires ProbeOk(slots, hash, secret) && d < |slots|
    requires Passed(slots, Home(hash, secret, key, |slots|), key, d)
    requires slots[At(Home(hash, secret, key, |slots|), d, |slots|)].None?
    ensures Some(key) !in slots
    ensures PathFull(slots, Home(hash, secret, key, |slots|), d)
    ensures Steps(Home(hash, secret, key, |slots|), At(Home(hash, secret, key, |slots|), d, |slots|), |slots|) == d
  {
    var home := Home(hash, secret, key, |slots|);
    forall i | 0 <= i < |slots| ensures slots[i] != Some(key) {
      var s := Steps(home, i, |slots|);
      assert slots[i] == Some(key) ==> PathFull(slots, home, s);
    }
  }

  /** Filling the first empty slot on a key's path keeps the table searchable. */
  lemma PlaceKeepsProbing(slots: Slots, hash: Hash, secret: uint64, key: Key, d: nat)
    requires ProbeOk(slots, hash, secret) && Some(key) !in slots && d < |slots|
    requires PathFull(slots, Home(hash, secret, key, |slots|), d)
    requires slots[At(Home(hash, secret, key, |slots|), d, |slots|)].None?
    ensures var i := At(Home(hash, secret, key, |slots|), d, |slots|);
            && ProbeOk(slots[i := Some(key)], hash, secret)
            && Taken(slots[i := Some(key)]) == Taken(slots) + {i}
            && |Taken(slots[i := Some(key)])| == |Taken(slots)| + 1
  {
    var n := |slots|;
    var home := Home(hash, secret, key, n);
    var i := At(home, d, n);
    var after := slots[i := Some(key)];
    assert Steps(home, i, n) == d;
    forall j | 0 <= j < n && after[j].Some?
      ensures var h := Home(hash, secret, after[j].value, n); PathFull(after, h, Steps(h, j, n))
    {
      var h := Home(hash, secret, after[j].value, n);
      assert PathFull(slots, h, Steps(h, j, n));
    }
    assert Taken(after) == Taken(slots) + {i};
    assert i !in Taken(slots);
  }
}
