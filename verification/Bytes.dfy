/** Bytes, options, panics, little-endian integers and a little arithmetic, shared by every module. */
module Bytes {

  type byte = b: int | 0 <= b < 256

  type uint64 = n: int | 0 <= n < 0x1_0000_0000_0000_0000

  datatype Option<+T> = None | Some(value: T)

  /** The outcome of Rust code that may panic, for example on an index out of range. */
  datatype Outcome<+T> = Panic | Done(value: T)

  /** 256 to the power k. */
  function Pow256(k: nat): (p: nat)
    ensures p >= 1
  {
    if k == 0 then 1 else 256 * Pow256(k - 1)
  }

  function Pow2(k: nat): (p: nat)
    ensures p >= 1
  {
    if k == 0 then 1 else 2 * Pow2(k - 1)
  }

  /** The k low bytes of n, least significant first; higher bytes are cut off. */
  function LeBytes(n: nat, k: nat): (s: seq<byte>)
    ensures |s| == k
  {
    if k == 0 then [] else [n % 256] + LeBytes(n / 256, k - 1)
  }

  function FromLe(s: seq<byte>): (n: nat)
    ensures n < Pow256(|s|)
  {
    if s == [] then 0 else s[0] + 256 * FromLe(s[1..])
  }

  lemma {:induction false} LeRoundTrip(n: nat, k: nat)
    requires n < Pow256(k)
    ensures FromLe(LeBytes(n, k)) == n
  {
    if k == 0 {
    } else {
      assert LeBytes(n, k)[1..] == LeBytes(n / 256, k - 1);
      LeRoundTrip(n / 256, k - 1);
    }
  }

  lemma {:induction false} LeDigit(n: nat, k: nat, i: nat)
    requires i < k
    ensures LeBytes(n, k)[i] == n / Pow256(i) % 256
  {
    if i == 0 {
    } else {
      LeDigit(n / 256, k - 1, i - 1);
      DivideTwice(n, 256, Pow256(i - 1));
    }
  }

  lemma Distribute(a: nat, b: nat, q: nat, r: nat)
    ensures a * (q * b + r) == q * (a * b) + a * r
  {
    calc {
      a * (q * b + r);
    ==
      a * (q * b) + a * r;
    == { Commute(a, q, b); }
      q * (a * b) + a * r;
    }
  }

  lemma Commute(a: nat, q: nat, b: nat)
    ensures a * (q * b) == q * (a * b)
  {
  }

  lemma OneLess(a: nat, b: nat, r: nat)
    requires r < b
    ensures a * r + a <= a * b
  {
    Multiple(b - r, a);
    assert (b - r) * a == b * a - r * a;
  }

  lemma DivideTwice(n: nat, a: nat, b: nat)
    requires a > 0 && b > 0
    ensures a * b > 0 && n / a / b == n / (a * b)
  {
    var d, m := n / a, n % a;
    var q, r := d / b, d % b;
    Distribute(a, b, q, r);
    OneLess(a, b, r);
    Quotient(n, a * b, q, a * r + m);
  }

  lemma LowDigit(low: byte, high: nat)
    ensures (low + 256 * high) % 256 == low && (low + 256 * high) / 256 == high
  {
  }

  lemma {:induction false} LeBack(s: seq<byte>)
    ensures LeBytes(FromLe(s), |s|) == s
  {
    if s == [] {
    } else {
      LeBack(s[1..]);
      LowDigit(s[0], FromLe(s[1..]));
      assert s == [s[0]] + s[1..];
    }
  }

  lemma Multiple(d: int, size: nat)
    ensures d >= 1 ==> d * size >= size
    ensures d <= -1 ==> d * size <= 0 - size
  {
  }

  lemma Quotient(x: nat, size: nat, c: nat, off: nat)
    requires off < size && x == c * size + off
    ensures x / size == c && x % size == off
  {
    var q := x / size;
    assert (q - c) * size == q * size - c * size;
    Multiple(q - c, size);
  }

  /** `data` with the bytes from `at` on overwritten by `patch`. */
  function Splice(data: seq<byte>, at: nat, patch: seq<byte>): (r: seq<byte>)
    requires at + |patch| <= |data|
    ensures |r| == |data|
    ensures r[at..at + |patch|] == patch
    ensures forall i | 0 <= i < |data| && !(at <= i < at + |patch|) :: r[i] == data[i]
  {
    data[..at] + patch + data[at + |patch|..]
  }

  lemma SpliceTwice(data: seq<byte>, at: nat, p: seq<byte>, q: seq<byte>)
    requires at + |p| + |q| <= |data|
    ensures Splice(Splice(data, at, p), at + |p|, q) == Splice(data, at, p + q)
  {
  }
}
