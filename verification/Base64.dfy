/** Standard base64 with canonical padding. */
module Base64 {
  import opened Bytes

  type sextet = n: int | 0 <= n < 64

  function EncodeSextet(n: sextet): (c: char)
  {
    if n < 26 then ('A' as int + n) as char
    else if n < 52 then ('a' as int + n - 26) as char
    else if n < 62 then ('0' as int + n - 52) as char
    else if n == 62 then '+' else '/'
  }

  function DecodeSextet(c: char): (n: Option<sextet>)
  {
    if 'A' <= c <= 'Z' then Some(c as int - 'A' as int)
    else if 'a' <= c <= 'z' then Some(c as int - 'a' as int + 26)
    else if '0' <= c <= '9' then Some(c as int - '0' as int + 52)
    else if c == '+' then Some(62) else if c == '/' then Some(63) else None
  }

  lemma SextetExactly(c: char, n: sextet)
    ensures DecodeSextet(c) == Some(n) <==> c == EncodeSextet(n)
    ensures EncodeSextet(n) != '=' && EncodeSextet(n) != '\n'
  {
  }

  lemma UpperCase(n: nat)
    requires n < 26
    ensures "ABCDEFGHIJKLMNOPQRSTUVWXYZ"[n] == EncodeSextet(n)
  {
    if n < 13 {
      assert "ABCDEFGHIJKLM"[n] == EncodeSextet(n);
    } else {
      assert "NOPQRSTUVWXYZ"[n - 13] == EncodeSextet(n);
    }
  }

  lemma LowerCase(n: nat)
    requires n < 26
    ensures "abcdefghijklmnopqrstuvwxyz"[n] == EncodeSextet(26 + n)
  {
    if n < 13 {
      assert "abcdefghijklm"[n] == EncodeSextet(26 + n);
    } else {
      assert "nopqrstuvwxyz"[n - 13] == EncodeSextet(26 + n);
    }
  }

  /** The alphabet of section 4 of RFC 4648. */
  lemma SextetTable(n: sextet)
    ensures EncodeSextet(n) == ("ABCDEFGHIJKLMNOPQRSTUVWXYZ" + "abcdefghijklmnopqrstuvwxyz" + "0123456789+/")[n]
  {
    if n < 26 {
      UpperCase(n);
    } else if n < 52 {
      LowerCase(n - 26);
    } else {
      assert "0123456789+/"[n - 52] == EncodeSextet(n);
    }
  }

  function Encode(b: seq<byte>): string
  {
    if b == [] then ""
    else if |b| == 1 then [EncodeSextet(b[0] / 4), EncodeSextet(b[0] % 4 * 16), '=', '=']
    else if |b| == 2 then
      [EncodeSextet(b[0] / 4), EncodeSextet(b[0] % 4 * 16 + b[1] / 16), EncodeSextet(b[1] % 16 * 4), '=']
    else
      [EncodeSextet(b[0] / 4), EncodeSextet(b[0] % 4 * 16 + b[1] / 16),
       EncodeSextet(b[1] % 16 * 4 + b[2] / 64), EncodeSextet(b[2] % 64)] + Encode(b[3..])
  }

  /** One group of four characters; only the last group may be padded, with zero bits only. */
  function DecodeGroup(c0: char, c1: char, c2: char, c3: char, last: bool): Option<seq<byte>>
  {
    var n0, n1, n2, n3 := DecodeSextet(c0), DecodeSextet(c1), DecodeSextet(c2), DecodeSextet(c3);
    if n0.None? || n1.None? then None
    else if last && c2 == '=' && c3 == '=' then
      if n1.value % 16 != 0 then None else Some([n0.value * 4 + n1.value / 16])
    else if n2.None? then None
    else if last && c3 == '=' then
      if n2.value % 4 != 0 then None
      else Some([n0.value * 4 + n1.value / 16, n1.value % 16 * 16 + n2.value / 4])
    else if n3.None? then None
    else Some([n0.value * 4 + n1.value / 16, n1.value % 16 * 16 + n2.value / 4, n2.value % 4 * 64 + n3.value])
  }

  function Decode(s: string): Option<seq<byte>>
  {
    if s == "" then Some([])
    else if |s| < 4 then None
    else
      var group, rest := DecodeGroup(s[0], s[1], s[2], s[3], |s| == 4), Decode(s[4..]);
      if group.None? || rest.None? then None else Some(group.value + rest.value)
  }

  lemma Regroup(x: byte, y: byte, z: byte)
    ensures x / 4 * 4 + (x % 4 * 16 + y / 16) / 16 == x
    ensures (x % 4 * 16 + y / 16) % 16 * 16 + (y % 16 * 4 + z / 64) / 4 == y
    ensures (y % 16 * 4 + z / 64) % 4 * 64 + z % 64 == z
    ensures (x % 4 * 16) / 16 == x % 4 && (x % 4 * 16) % 16 == 0
    ensures (y % 16 * 4) / 4 == y % 16 && (y % 16 * 4) % 4 == 0
  {
  }

  lemma GroupOfThree(x: byte, y: byte, z: byte, last: bool)
    ensures DecodeGroup(EncodeSextet(x / 4), EncodeSextet(x % 4 * 16 + y / 16), EncodeSextet(y % 16 * 4 + z / 64),
                        EncodeSextet(z % 64), last) == Some([x, y, z])
  {
    hide EncodeSextet, DecodeSextet;
    Regroup(x, y, z);
    SextetExactly(EncodeSextet(x / 4), x / 4);
    SextetExactly(EncodeSextet(x % 4 * 16 + y / 16), x % 4 * 16 + y / 16);
    SextetExactly(EncodeSextet(y % 16 * 4 + z / 64), y % 16 * 4 + z / 64);
    SextetExactly(EncodeSextet(z % 64), z % 64);
  }

  lemma GroupOfTwo(x: byte, y: byte)
    ensures DecodeGroup(EncodeSextet(x / 4), EncodeSextet(x % 4 * 16 + y / 16), EncodeSextet(y % 16 * 4), '=', true)
            == Some([x, y])
  {
    hide EncodeSextet, DecodeSextet;
    Regroup(x, y, 0);
    SextetExactly(EncodeSextet(x / 4), x / 4);
    SextetExactly(EncodeSextet(x % 4 * 16 + y / 16), x % 4 * 16 + y / 16);
    SextetExactly(EncodeSextet(y % 16 * 4), y % 16 * 4);
  }

  lemma GroupOfOne(x: byte)
    ensures DecodeGroup(EncodeSextet(x / 4), EncodeSextet(x % 4 * 16), '=', '=', true) == Some([x])
  {
    hide EncodeSextet, DecodeSextet;
    Regroup(x, 0, 0);
    SextetExactly(EncodeSextet(x / 4), x / 4);
    SextetExactly(EncodeSextet(x % 4 * 16), x % 4 * 16);
  }

  lemma {:induction false} GroupOfEncoding(b: seq<byte>)
    requires b != []
    ensures var s, n := Encode(b), if |b| < 3 then |b| else 3;
            && |s| >= 4 && (|s| == 4 <==> |b| <= 3)
            && DecodeGroup(s[0], s[1], s[2], s[3], |s| == 4) == Some(b[..n])
            && s[4..] == Encode(b[n..])
  {
    hide EncodeSextet, DecodeGroup;
    if |b| >= 3 {
      assert Encode(b)[4..] == Encode(b[3..]);
      GroupOfThree(b[0], b[1], b[2], |Encode(b)| == 4);
      assert b[..3] == [b[0], b[1], b[2]];
      assert |b| == 3 <==> b[3..] == [];
    } else if |b| == 2 {
      GroupOfTwo(b[0], b[1]);
      assert b[..2] == [b[0], b[1]];
    } else {
      GroupOfOne(b[0]);
      assert b[..1] == [b[0]];
    }
  }

  lemma {:induction false} RoundTrip(b: seq<byte>)
    ensures Decode(Encode(b)) == Some(b)
    decreases |b|
  {
    if b == [] {
    } else {
      hide DecodeGroup, EncodeSextet;
      var n := if |b| < 3 then |b| else 3;
      GroupOfEncoding(b);
      RoundTrip(b[n..]);
      assert b[..n] + b[n..] == b;
    }
  }

  lemma Ungroup(n0: sextet, n1: sextet, n2: sextet, n3: sextet)
    ensures var x, y, z := n0 * 4 + n1 / 16, n1 % 16 * 16 + n2 / 4, n2 % 4 * 64 + n3;
            && 0 <= x < 256 && 0 <= y < 256 && 0 <= z < 256
            && x / 4 == n0 && x % 4 * 16 + y / 16 == n1 && y % 16 * 4 + z / 64 == n2 && z % 64 == n3
            && (n1 % 16 == 0 ==> x % 4 * 16 == n1) && (n2 % 4 == 0 ==> y % 16 * 4 == n2)
  {
  }

  lemma EncodeThree(g: seq<byte>, rest: seq<byte>)
    requires |g| == 3
    ensures Encode(g + rest) == Encode(g) + Encode(rest)
  {
    hide EncodeSextet;
    assert g[3..] == [] && (g + rest)[3..] == rest;
  }

  /** A group decodes to bytes only if it is the encoding of those bytes. */
  lemma {:induction false} GroupCanonical(c0: char, c1: char, c2: char, c3: char, last: bool)
    requires DecodeGroup(c0, c1, c2, c3, last).Some?
    ensures var g := DecodeGroup(c0, c1, c2, c3, last).value;
            0 < |g| <= 3 && (|g| < 3 ==> last) && Encode(g) == [c0, c1, c2, c3]
  {
    hide EncodeSextet, DecodeSextet, Encode;
    var g := DecodeGroup(c0, c1, c2, c3, last).value;
    var n0, n1 := DecodeSextet(c0).value, DecodeSextet(c1).value;
    SextetExactly(c0, n0);
    SextetExactly(c1, n1);
    EncodeShort(g);
    if |g| == 1 {
      Ungroup(n0, n1, 0, 0);
    } else {
      var n2 := DecodeSextet(c2).value;
      SextetExactly(c2, n2);
      if |g| == 2 {
        Ungroup(n0, n1, n2, 0);
      } else {
        var n3 := DecodeSextet(c3).value;
        SextetExactly(c3, n3);
        Ungroup(n0, n1, n2, n3);
      }
    }
  }

  lemma {:induction false} EncodeShort(g: seq<byte>)
    requires 0 < |g| <= 3
    ensures |g| == 1 ==> Encode(g) == [EncodeSextet(g[0] / 4), EncodeSextet(g[0] % 4 * 16), '=', '=']
    ensures |g| == 2 ==> Encode(g) == [EncodeSextet(g[0] / 4), EncodeSextet(g[0] % 4 * 16 + g[1] / 16),
                                       EncodeSextet(g[1] % 16 * 4), '=']
    ensures |g| == 3 ==> Encode(g) == [EncodeSextet(g[0] / 4), EncodeSextet(g[0] % 4 * 16 + g[1] / 16),
                                       EncodeSextet(g[1] % 16 * 4 + g[2] / 64), EncodeSextet(g[2] % 64)]
  {
    hide EncodeSextet;
    if |g| == 3 { assert g[3..] == []; }
  }

  lemma {:induction false} DecodedIsEncoded(s: string)
    requires Decode(s).Some?
    ensures Encode(Decode(s).value) == s
    decreases |s|
  {
    hide DecodeGroup, EncodeSextet, Encode;
    if s == "" {
      EncodeNothing();
    } else {
      var g, rest := DecodeGroup(s[0], s[1], s[2], s[3], |s| == 4).value, Decode(s[4..]).value;
      GroupCanonical(s[0], s[1], s[2], s[3], |s| == 4);
      DecodedIsEncoded(s[4..]);
      assert s == [s[0], s[1], s[2], s[3]] + s[4..];
      if |g| == 3 {
        EncodeThree(g, rest);
      } else {
        assert s[4..] == "" && g + rest == g;
      }
    }
  }

  lemma EncodeNothing()
    ensures Encode([]) == ""
  {
  }

  /** Decoding accepts exactly the encodings, one text for each byte string. */
  lemma DecodesExactly(s: string, b: seq<byte>)
    ensures Decode(s) == Some(b) <==> s == Encode(b)
  {
    RoundTrip(b);
    if Decode(s) == Some(b) { DecodedIsEncoded(s); }
  }

  function ValueOf(c: char): int
  {
    if DecodeSextet(c).Some? then DecodeSextet(c).value else 0
  }

  /** The byte at an index, or zero behind the end. */
  function ByteAt(b: seq<byte>, i: nat): int
  {
    if i < |b| then b[i] else 0
  }

  lemma ValueIs(n: sextet)
    ensures ValueOf(EncodeSextet(n)) == n && ValueOf('=') == 0 && EncodeSextet(n) != '='
  {
    SextetExactly(EncodeSextet(n), n);
  }

  lemma Bits(x: byte, y: byte, z: byte)
    ensures x / 4 * 262144 + (x % 4 * 16 + y / 16) * 4096 + (y % 16 * 4 + z / 64) * 64 + z % 64 ==
            x * 65536 + y * 256 + z
  {
  }

  /** Four characters are the 24 bits of three bytes, highest first; missing bytes are zero bits and padding. */
  lemma SameBits(b: seq<byte>)
    requires 0 < |b| <= 3
    ensures |Encode(b)| == 4
    ensures var s := Encode(b);
            ValueOf(s[0]) * 262144 + ValueOf(s[1]) * 4096 + ValueOf(s[2]) * 64 + ValueOf(s[3]) ==
            ByteAt(b, 0) * 65536 + ByteAt(b, 1) * 256 + ByteAt(b, 2)
    ensures (Encode(b)[2] == '=' <==> |b| == 1) && (Encode(b)[3] == '=' <==> |b| <= 2)
  {
    hide EncodeSextet, DecodeSextet, ValueOf;
    var x, y, z := ByteAt(b, 0), ByteAt(b, 1), ByteAt(b, 2);
    Bits(x, y, z);
    ValueIs(x / 4);
    ValueIs(x % 4 * 16 + y / 16);
    ValueIs(y % 16 * 4 + z / 64);
    ValueIs(z % 64);
    if |b| == 3 { assert b[3..] == []; }
  }
}
