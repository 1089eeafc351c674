/** The bytes of a text: UTF-8, as section 3 of RFC 3629 defines it. */
module Utf8 {
  import opened Bytes

  /** One character, in one to four bytes. */
  function EncodeChar(c: char): (s: seq<byte>)
    ensures 1 <= |s| <= 4
  {
    var n := c as int;
    if n < 0x80 then [n]
    else if n < 0x800 then [0xC0 + n / 0x40, 0x80 + n % 0x40]
    else if n < 0x1_0000 then [0xE0 + n / 0x1000, 0x80 + n / 0x40 % 0x40, 0x80 + n % 0x40]
    else [0xF0 + n / 0x4_0000, 0x80 + n / 0x1000 % 0x40, 0x80 + n / 0x40 % 0x40, 0x80 + n % 0x40]
  }

  function Encode(text: string): (s: seq<byte>)
  {
    if text == "" then [] else EncodeChar(text[0]) + Encode(text[1..])
  }

  /** How many bytes a character has can be told from the first. */
  function Width(b: byte): nat
  {
    if b < 0x80 then 1 else if b < 0xE0 then 2 else if b < 0xF0 then 3 else 4
  }

  /** The character of one to four bytes. */
  function CodePoint(s: seq<byte>): int
    requires s != [] && |s| == Width(s[0])
  {
    var a: int := s[0];
    var b: int := if |s| > 1 then s[1] else 0;
    var c: int := if |s| > 2 then s[2] else 0;
    var d: int := if |s| > 3 then s[3] else 0;
    match |s|
    case 1 => a
    case 2 => (a - 0xC0) * 0x40 + (b - 0x80)
    case 3 => (a - 0xE0) * 0x1000 + (b - 0x80) * 0x40 + (c - 0x80)
    case _ => (a - 0xF0) * 0x4_0000 + (b - 0x80) * 0x1000 + (c - 0x80) * 0x40 + (d - 0x80)
  }

  lemma CharReadsBack(c: char)
    ensures var s := EncodeChar(c); |s| == Width(s[0]) && CodePoint(s) == c as int
  {
    var n := c as int;
    var a, b := n / 0x40, n / 0x1000;
    assert n == a * 0x40 + n % 0x40 && a / 0x40 == b && a == b * 0x40 + a % 0x40;
    assert b == b / 0x40 * 0x40 + b % 0x40 && b / 0x40 == n / 0x4_0000;
  }

  /** The first example of section 7 of RFC 3629, a name with signs of one, two and three bytes. */
  lemma Example()
    ensures Encode("A\U{2262}\U{391}.") == [0x41, 0xE2, 0x89, 0xA2, 0xCE, 0x91, 0x2E]
  {
    var s := "A\U{2262}\U{391}.";
    assert s[1..] == "\U{2262}\U{391}." && s[1..][1..] == "\U{391}." && s[1..][1..][1..] == ".";
    assert "."[1..] == "" && Encode(".") == [0x2E];
    assert Encode("\U{391}.") == [0xCE, 0x91] + Encode(".");
  }

  /** Two texts with the same bytes are the same. */
  lemma {:induction false} Injective(x: string, y: string)
    requires Encode(x) == Encode(y)
    ensures x == y
    decreases |x|
  {
    hide EncodeChar, CodePoint, Width;
    if x == "" || y == "" {
    } else {
      var s, a, b := Encode(x), EncodeChar(x[0]), EncodeChar(y[0]);
      CharReadsBack(x[0]);
      CharReadsBack(y[0]);
      assert s[0] == a[0] == b[0];
      assert a == s[..|a|] == b;
      assert Encode(x[1..]) == s[|a|..] == Encode(y[1..]);
      Injective(x[1..], y[1..]);
      assert x == [x[0]] + x[1..] && y == [y[0]] + y[1..];
    }
  }
}
