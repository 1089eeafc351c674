/**
 The variable-length code for key and value lengths. The first byte holds the
 number of further bytes in its top two bits and the most significant six bits of
 the length; the further bytes hold the rest, least significant first.
 */
module LenCode {
  import opened Bytes

  /** The lengths the two-bit byte count can represent. */
  const LEN_LIMIT := 0x4000_0000

  /** How many times `len` is shifted down by a byte before it is below 64. */
  function ExtraBytes(len: nat): (n: nat)
    ensures n == 0 <==> len < 64
  {
    if len < 64 then 0 else 1 + ExtraBytes(len / 256)
  }

  function Shifted(len: nat, n: nat): nat
  {
    if n == 0 then len else Shifted(len / 256, n - 1)
  }

  function EncodeLen(len: nat): (s: seq<byte>)
    ensures |s| == 1 + ExtraBytes(len)
  {
    var n := ExtraBytes(len);
    [(n * 64 + Shifted(len, n)) % 256] + LeBytes(len, n)
  }

  /** The bytes `ReadLen` looks at are inside `data`. */
  predicate LenReadable(data: seq<byte>, index: nat)
  {
    index < |data| && index + 1 + data[index] / 64 <= |data|
  }

  function ReadLen(data: seq<byte>, index: nat): (r: (nat, nat))
    requires LenReadable(data, index)
  {
    var first := data[index];
    if first < 64 then (first, 1)
    else
      var n := first / 64;
      (FromLe(data[index + 1..index + 1 + n]) + (first % 64) * Pow256(n), 1 + n)
  }

  lemma {:induction false} SplitLen(len: nat, n: nat)
    ensures len == FromLe(LeBytes(len, n)) + Shifted(len, n) * Pow256(n)
  {
    if n == 0 {
    } else {
      SplitLen(len / 256, n - 1);
      assert LeBytes(len, n)[1..] == LeBytes(len / 256, n - 1);
      Regrouped(Shifted(len / 256, n - 1), Pow256(n - 1));
    }
  }

  lemma Regrouped(s: nat, p: nat)
    ensures s * (256 * p) == 256 * (s * p)
  {
  }

  lemma {:induction false} ShiftedIsSmall(len: nat)
    ensures Shifted(len, ExtraBytes(len)) < 64
  {
    if len < 64 {
    } else {
      ShiftedIsSmall(len / 256);
    }
  }

  lemma ExtraBytesBound(len: nat)
    requires len < LEN_LIMIT
    ensures ExtraBytes(len) <= 3
  {
    assert ExtraBytes(len / 256 / 256 / 256) == 0;
    assert ExtraBytes(len / 256 / 256) <= 1;
    assert ExtraBytes(len / 256) <= 2;
  }

  lemma FirstByte(n: nat, high: nat)
    requires n <= 3 && high < 64
    ensures var b := (n * 64 + high) % 256; b == n * 64 + high && b / 64 == n && b % 64 == high
  {
  }

  /** Writing a length and reading it back, anywhere in a buffer. */
  lemma ReadsBack(data: seq<byte>, index: nat, len: nat)
    requires len < LEN_LIMIT
    requires index + |EncodeLen(len)| <= |data|
    requires data[index..index + |EncodeLen(len)|] == EncodeLen(len)
    ensures |EncodeLen(len)| <= 4
    ensures LenReadable(data, index)
    ensures ReadLen(data, index) == (len, |EncodeLen(len)|)
  {
    hide LeBytes, FromLe, Pow256, ExtraBytes;
    var n := ExtraBytes(len);
    ExtraBytesBound(len);
    ShiftedIsSmall(len);
    SplitLen(len, n);
    FirstByte(n, Shifted(len, n));
    assert data[index] == data[index..index + 1 + n][0];
    assert data[index + 1..index + 1 + n] == data[index..index + 1 + n][1..] == LeBytes(len, n);
  }

  lemma {:induction false} ShiftedIs(len: nat, n: nat)
    ensures Shifted(len, n) == len / Pow256(n)
  {
    if n == 0 {
    } else {
      ShiftedIs(len / 256, n - 1);
      DivideTwice(len, 256, Pow256(n - 1));
    }
  }

  /**
   The layout: two bits that count the further bytes, the six highest bits of the length,
   then its lower bytes, least significant first.
   */
  lemma LenLayout(len: nat, i: nat)
    requires len < LEN_LIMIT
    ensures var s := EncodeLen(len);
            var n := if len < 0x40 then 0 else if len < 0x4000 then 1 else if len < 0x40_0000 then 2 else 3;
            && |s| == 1 + n && s[0] == n * 64 + len / Pow256(n)
            && (i < n ==> s[1 + i] == len / Pow256(i) % 256)
  {
    hide ExtraBytes, LeBytes, Shifted, Pow256;
    var n := ExtraBytes(len);
    ExtraBytesRange(len);
    ShiftedIs(len, n);
    ShiftedIsSmall(len);
    if i < n { LeDigit(len, n, i); }
  }

  lemma ExtraBytesRange(len: nat)
    requires len < LEN_LIMIT
    ensures ExtraBytes(len) == if len < 0x40 then 0 else if len < 0x4000 then 1 else if len < 0x40_0000 then 2 else 3
  {
    assert ExtraBytes(len / 256 / 256 / 256) == 0;
    assert ExtraBytes(len / 256 / 256) == if len / 256 / 256 < 64 then 0 else 1;
    assert ExtraBytes(len / 256) == if len / 256 < 64 then 0 else if len / 256 < 0x4000 then 1 else 2;
  }

  /** No encoding can read back as a length of 2^30 or more. */
  lemma ReadLenBelowLimit(data: seq<byte>, index: nat)
    requires LenReadable(data, index)
    ensures ReadLen(data, index).0 < LEN_LIMIT
  {
    var n := data[index] / 64;
    if data[index] >= 64 {
      var low := FromLe(data[index + 1..index + 1 + n]);
      assert Pow256(0) == 1 && Pow256(1) == 256 && Pow256(2) == 65536 && Pow256(3) == 16777216;
      assert low < Pow256(n);
      assert n == 1 || n == 2 || n == 3;
    }
  }

  /**
   The code is faithful exactly for lengths below 2^30: a longer length needs four or
   more further bytes, whose count does not fit in two bits, and reads back as another.
   */
  lemma FaithfulExactlyBelowLimit(data: seq<byte>, index: nat, len: nat)
    requires index + |EncodeLen(len)| <= |data|
    requires data[index..index + |EncodeLen(len)|] == EncodeLen(len)
    ensures LenReadable(data, index) && ReadLen(data, index).0 == len <==> len < LEN_LIMIT
  {
    if len < LEN_LIMIT {
      ReadsBack(data, index, len);
    } else if LenReadable(data, index) {
      ReadLenBelowLimit(data, index);
    }
  }

  /** A code written byte by byte, the first byte last, is spliced in. */
  lemma CodeWritten(before: seq<byte>, after: seq<byte>, index: nat, code: seq<byte>)
    requires |code| > 0 && index + |code| <= |before| == |after|
    requires forall i | 0 <= i < |code| :: after[index + i] == code[i]
    requires forall i | 0 <= i < |before| && !(index <= i < index + |code|) :: after[i] == before[i]
    ensures after == Splice(before, index, code)
  {
    var spliced := Splice(before, index, code);
    forall i | 0 <= i < |before| ensures after[i] == spliced[i] {
      if index <= i < index + |code| {
        assert after[index + (i - index)] == code[i - index];
        assert spliced[i] == spliced[index..index + |code|][i - index];
      }
    }
  }

  /** Writes the length in place and returns how many bytes it took. */
  method WriteLen(data: array<byte>, index: nat, length: nat) returns (size: nat)
    requires index + |EncodeLen(length)| <= data.Length
    modifies data
    ensures size == |EncodeLen(length)|
    ensures data[..] == Splice(old(data[..]), index, EncodeLen(length))
  {
    hide Splice;
    var len := length;
    ghost var before := data[..];
    if len < 64 {
      data[index] := len;
      CodeWritten(before, data[..], index, EncodeLen(length));
      return 1;
    }
    size := 1;
    ghost var code := LeBytes(length, ExtraBytes(length));
    while len >= 64
      invariant size >= 1 && size - 1 + ExtraBytes(len) == ExtraBytes(length)
      invariant Shifted(len, ExtraBytes(len)) == Shifted(length, ExtraBytes(length))
      invariant LeBytes(len, ExtraBytes(len)) == code[size - 1..]
      invariant forall i | 0 <= i < size - 1 :: data[index + 1 + i] == code[i]
      invariant forall i | 0 <= i < data.Length && !(index < i < index + size) :: data[i] == old(data[i])
      decreases len
    {
      data[index + size] := len % 256;
      assert LeBytes(len, ExtraBytes(len))[1..] == LeBytes(len / 256, ExtraBytes(len) - 1);
      len := len / 256;
      size := size + 1;
    }
    ShiftedIsSmall(length);
    data[index] := ((size - 1) * 64 + len) % 256;
    CodeWritten(before, data[..], index, EncodeLen(length));
  }
}
