/** Hexadecimal and raw digests, and how measurements are compared with expected ones. */
module Digests {
  import opened Bytes

  /** Nine optional digests of one binary; an empty field is one that is not given. */
  datatype Digest<X> = Digest(psha2: seq<X>, sha1: seq<X>, sha2_256: seq<X>, sha2_512: seq<X>, sha3_512: seq<X>,
                              sha3_384: seq<X>, sha3_256: seq<X>, sha3_224: seq<X>, sha2_384: seq<X>)

  type RawDigest = Digest<byte>
  type HexDigest = Digest<char>

  datatype MatchResult = Same | Different | Undecidable | Contradictory

  /** A field is given on both sides and is the same, or is not. */
  predicate SameIn<X(==)>(x: seq<X>, y: seq<X>)
  {
    x != [] && y != [] && x == y
  }

  predicate DifferentIn<X(==)>(x: seq<X>, y: seq<X>)
  {
    x != [] && y != [] && x != y
  }

  predicate SomeSame<X(==)>(a: Digest<X>, b: Digest<X>)
  {
    || SameIn(a.psha2, b.psha2) || SameIn(a.sha1, b.sha1) || SameIn(a.sha2_256, b.sha2_256)
    || SameIn(a.sha2_512, b.sha2_512) || SameIn(a.sha3_512, b.sha3_512) || SameIn(a.sha3_384, b.sha3_384)
    || SameIn(a.sha3_256, b.sha3_256) || SameIn(a.sha3_224, b.sha3_224) || SameIn(a.sha2_384, b.sha2_384)
  }

  predicate SomeDifferent<X(==)>(a: Digest<X>, b: Digest<X>)
  {
    || DifferentIn(a.psha2, b.psha2) || DifferentIn(a.sha1, b.sha1) || DifferentIn(a.sha2_256, b.sha2_256)
    || DifferentIn(a.sha2_512, b.sha2_512) || DifferentIn(a.sha3_512, b.sha3_512) || DifferentIn(a.sha3_384, b.sha3_384)
    || DifferentIn(a.sha3_256, b.sha3_256) || DifferentIn(a.sha3_224, b.sha3_224) || DifferentIn(a.sha2_384, b.sha2_384)
  }

  /** The verdict on two digests, by the fields that both give. */
  function Match<X(==)>(a: Digest<X>, b: Digest<X>): MatchResult
  {
    if SomeSame(a, b) then if SomeDifferent(a, b) then Contradictory else Same
    else if SomeDifferent(a, b) then Different else Undecidable
  }

  function NoDigest<X>(): Digest<X>
  {
    Digest([], [], [], [], [], [], [], [], [])
  }

  /** Each of the nine fields decides by itself when it is the only one given. */
  lemma EveryFieldCounts<X>(x: seq<X>, y: seq<X>)
    requires x != [] && y != []
    ensures Match(NoDigest().(psha2 := x), NoDigest().(psha2 := y)) == if x == y then Same else Different
    ensures Match(NoDigest().(sha1 := x), NoDigest().(sha1 := y)) == if x == y then Same else Different
    ensures Match(NoDigest().(sha2_256 := x), NoDigest().(sha2_256 := y)) == if x == y then Same else Different
    ensures Match(NoDigest().(sha2_512 := x), NoDigest().(sha2_512 := y)) == if x == y then Same else Different
    ensures Match(NoDigest().(sha3_512 := x), NoDigest().(sha3_512 := y)) == if x == y then Same else Different
    ensures Match(NoDigest().(sha3_384 := x), NoDigest().(sha3_384 := y)) == if x == y then Same else Different
    ensures Match(NoDigest().(sha3_256 := x), NoDigest().(sha3_256 := y)) == if x == y then Same else Different
    ensures Match(NoDigest().(sha3_224 := x), NoDigest().(sha3_224 := y)) == if x == y then Same else Different
    ensures Match(NoDigest().(sha2_384 := x), NoDigest().(sha2_384 := y)) == if x == y then Same else Different
  {
  }

  /** Fields given on one side only, or under different names, decide nothing. */
  lemma OtherFieldsDoNotCount<X>(a: Digest<X>, b: Digest<X>)
    requires a.psha2 == [] || b.psha2 == []
    requires a.sha1 == [] || b.sha1 == []
    requires a.sha2_256 == [] || b.sha2_256 == []
    requires a.sha2_512 == [] || b.sha2_512 == []
    requires a.sha3_512 == [] || b.sha3_512 == []
    requires a.sha3_384 == [] || b.sha3_384 == []
    requires a.sha3_256 == [] || b.sha3_256 == []
    requires a.sha3_224 == [] || b.sha3_224 == []
    requires a.sha2_384 == [] || b.sha2_384 == []
    ensures Match(a, b) == Undecidable
  {
  }

  /** One comparison of the sequence: counts a field given on both sides. */
  function Tally<X(==)>(counts: (nat, nat), x: seq<X>, y: seq<X>): (nat, nat)
  {
    if x == [] || y == [] then counts
    else if x == y then (counts.0 + 1, counts.1) else (counts.0, counts.1 + 1)
  }

  lemma Tallied<X>(counts: (nat, nat), x: seq<X>, y: seq<X>)
    ensures Tally(counts, x, y).0 > 0 <==> counts.0 > 0 || SameIn(x, y)
    ensures Tally(counts, x, y).1 > 0 <==> counts.1 > 0 || DifferentIn(x, y)
  {
  }

  /** `get_hex_digest_match`: counts equal and different fields, one after the other. */
  method DigestMatch<X(==)>(a: Digest<X>, b: Digest<X>) returns (r: MatchResult)
    ensures r.Same? || r.Contradictory? <==> SomeSame(a, b)
    ensures r.Different? || r.Contradictory? <==> SomeDifferent(a, b)
    ensures r == Match(a, b)
  {
    hide Tally, SameIn, DifferentIn;
    var t := (0, 0);
    Tallied(t, a.psha2, b.psha2);
    t := Tally(t, a.psha2, b.psha2);
    Tallied(t, a.sha1, b.sha1);
    t := Tally(t, a.sha1, b.sha1);
    Tallied(t, a.sha2_256, b.sha2_256);
    t := Tally(t, a.sha2_256, b.sha2_256);
    Tallied(t, a.sha2_512, b.sha2_512);
    t := Tally(t, a.sha2_512, b.sha2_512);
    Tallied(t, a.sha3_512, b.sha3_512);
    t := Tally(t, a.sha3_512, b.sha3_512);
    Tallied(t, a.sha3_384, b.sha3_384);
    t := Tally(t, a.sha3_384, b.sha3_384);
    Tallied(t, a.sha3_256, b.sha3_256);
    t := Tally(t, a.sha3_256, b.sha3_256);
    Tallied(t, a.sha3_224, b.sha3_224);
    t := Tally(t, a.sha3_224, b.sha3_224);
    Tallied(t, a.sha2_384, b.sha2_384);
    t := Tally(t, a.sha2_384, b.sha2_384);
    if t.0 > 0 {
      r := if t.1 > 0 then Contradictory else Same;
    } else {
      r := if t.1 > 0 then Different else Undecidable;
    }
  }

  // Hexadecimal.

  function HexDigit(n: nat): char
    requires n < 16
  {
    if n < 10 then ('0' as int + n) as char else ('a' as int + n - 10) as char
  }

  function HexValue(c: char): (n: Option<nat>)
    ensures n.Some? ==> n.value < 16
  {
    if '0' <= c <= '9' then Some(c as int - '0' as int)
    else if 'a' <= c <= 'f' then Some(c as int - 'a' as int + 10)
    else if 'A' <= c <= 'F' then Some(c as int - 'A' as int + 10) else None
  }

  function HexEncode(b: seq<byte>): string
  {
    if b == [] then "" else [HexDigit(b[0] / 16), HexDigit(b[0] % 16)] + HexEncode(b[1..])
  }

  /** Either case is read; an odd length or any other character is an error. */
  function HexDecode(s: string): (r: Option<seq<byte>>)
  {
    if s == "" then Some([])
    else if |s| == 1 then None
    else
      var high, low, rest := HexValue(s[0]), HexValue(s[1]), HexDecode(s[2..]);
      if high.None? || low.None? || rest.None? then None
      else Some([high.value * 16 + low.value] + rest.value)
  }

  lemma DigitReadsBack(n: nat)
    requires n < 16
    ensures HexValue(HexDigit(n)) == Some(n)
  {
  }

  lemma {:induction false} HexRoundTrip(b: seq<byte>)
    ensures HexDecode(HexEncode(b)) == Some(b)
  {
    hide HexDigit, HexValue;
    if b == [] {
    } else {
      HexRoundTrip(b[1..]);
      DigitReadsBack(b[0] / 16);
      DigitReadsBack(b[0] % 16);
      assert HexEncode(b)[2..] == HexEncode(b[1..]);
      assert b == [b[0]] + b[1..];
    }
  }

  /** Two digits a byte, the higher half first, in lower case. */
  lemma {:induction false} HexAt(b: seq<byte>, i: nat)
    requires i < |b|
    ensures |HexEncode(b)| == 2 * |b|
    ensures HexEncode(b)[2 * i] == "0123456789abcdef"[b[i] / 16]
    ensures HexEncode(b)[2 * i + 1] == "0123456789abcdef"[b[i] % 16]
  {
    var digits := "0123456789abcdef";
    assert forall n | 0 <= n < 16 :: HexDigit(n) == digits[n];
    if |b| > 1 {
      HexAt(b[1..], if i == 0 then 0 else i - 1);
    } else {
      assert b[1..] == [];
    }
  }

  function Lower(c: char): char
  {
    if 'A' <= c <= 'Z' then (c as int - 'A' as int + 'a' as int) as char else c
  }

  lemma DigitCanonical(c: char)
    ensures HexValue(c).Some? ==> HexDigit(HexValue(c).value) == Lower(c)
  {
  }

  /** What decodes is the encoding of the result up to upper case. */
  lemma {:induction false} HexCanonical(s: string)
    requires HexDecode(s).Some?
    ensures HexEncode(HexDecode(s).value) == seq(|s|, i requires 0 <= i < |s| => Lower(s[i]))
  {
    hide HexValue, Lower, HexDigit;
    var lower := seq(|s|, i requires 0 <= i < |s| => Lower(s[i]));
    if s == "" {
    } else {
      HexCanonical(s[2..]);
      DigitCanonical(s[0]);
      DigitCanonical(s[1]);
      var b := HexDecode(s).value;
      assert b[1..] == HexDecode(s[2..]).value;
      assert lower == [Lower(s[0]), Lower(s[1])] + seq(|s[2..]|, i requires 0 <= i < |s[2..]| => Lower(s[2..][i]));
    }
  }

  lemma DigitExactly(c: char, n: nat)
    requires n < 16
    ensures HexValue(c) == Some(n) <==> Lower(c) == HexDigit(n)
  {
  }

  function LowerAll(s: string): string
  {
    seq(|s|, i requires 0 <= i < |s| => Lower(s[i]))
  }

  /** A text is decoded exactly if it is the encoding of the result, up to upper case. */
  lemma {:induction false} HexDecodesExactly(s: string, b: seq<byte>)
    ensures HexDecode(s) == Some(b) <==> LowerAll(s) == HexEncode(b)
    decreases |s|
  {
    if s == "" {
      if b != [] { HexAt(b, 0); }
    } else if HexDecode(s) == Some(b) {
      HexCanonical(s);
    } else if LowerAll(s) == HexEncode(b) {
      EncodedDecodes(s, b);
    }
  }

  lemma {:induction false} EncodedDecodes(s: string, b: seq<byte>)
    requires LowerAll(s) == HexEncode(b)
    ensures HexDecode(s) == Some(b)
    decreases |s|
  {
    hide HexValue, HexDigit, Lower;
    if b == [] {
      assert s == "";
    } else {
      assert |s| == |LowerAll(s)| >= 2;
      assert Lower(s[0]) == LowerAll(s)[0] == HexDigit(b[0] / 16);
      assert Lower(s[1]) == LowerAll(s)[1] == HexDigit(b[0] % 16);
      DigitExactly(s[0], b[0] / 16);
      DigitExactly(s[1], b[0] % 16);
      assert LowerAll(s[2..]) == LowerAll(s)[2..] == HexEncode(b[1..]);
      EncodedDecodes(s[2..], b[1..]);
      assert b == [b[0]] + b[1..];
    }
  }

  function RawToHex(d: RawDigest): HexDigest
  {
    Digest(HexEncode(d.psha2), HexEncode(d.sha1), HexEncode(d.sha2_256), HexEncode(d.sha2_512), HexEncode(d.sha3_512),
           HexEncode(d.sha3_384), HexEncode(d.sha3_256), HexEncode(d.sha3_224), HexEncode(d.sha2_384))
  }

  function HexToRaw(h: HexDigest): Option<RawDigest>
  {
    var a, b, c := HexDecode(h.psha2), HexDecode(h.sha1), HexDecode(h.sha2_256);
    var d, e, f := HexDecode(h.sha2_512), HexDecode(h.sha3_512), HexDecode(h.sha3_384);
    var g, i, j := HexDecode(h.sha3_256), HexDecode(h.sha3_224), HexDecode(h.sha2_384);
    if a.None? || b.None? || c.None? || d.None? || e.None? || f.None? || g.None? || i.None? || j.None? then None
    else Some(Digest(a.value, b.value, c.value, d.value, e.value, f.value, g.value, i.value, j.value))
  }

  /** Raw digests survive the way to hexadecimal and back. */
  lemma DigestRoundTrip(d: RawDigest)
    ensures HexToRaw(RawToHex(d)) == Some(d)
  {
    hide HexEncode, HexDecode;
    HexRoundTrip(d.psha2);
    HexRoundTrip(d.sha1);
    HexRoundTrip(d.sha2_256);
    HexRoundTrip(d.sha2_512);
    HexRoundTrip(d.sha3_512);
    HexRoundTrip(d.sha3_384);
    HexRoundTrip(d.sha3_256);
    HexRoundTrip(d.sha3_224);
    HexRoundTrip(d.sha2_384);
  }

  /** Hexadecimal digests are decoded field by field, and only if all nine can be. */
  lemma DigestDecodesExactly(h: HexDigest, d: RawDigest)
    ensures HexToRaw(h) == Some(d) <==>
            && HexDecode(h.psha2) == Some(d.psha2) && HexDecode(h.sha1) == Some(d.sha1)
            && HexDecode(h.sha2_256) == Some(d.sha2_256) && HexDecode(h.sha2_512) == Some(d.sha2_512)
            && HexDecode(h.sha3_512) == Some(d.sha3_512) && HexDecode(h.sha3_384) == Some(d.sha3_384)
            && HexDecode(h.sha3_256) == Some(d.sha3_256) && HexDecode(h.sha3_224) == Some(d.sha3_224)
            && HexDecode(h.sha2_384) == Some(d.sha2_384)
  {
    hide HexDecode;
  }

  lemma HexSame(x: seq<byte>, y: seq<byte>)
    ensures SameIn(HexEncode(x), HexEncode(y)) <==> SameIn(x, y)
    ensures DifferentIn(HexEncode(x), HexEncode(y)) <==> DifferentIn(x, y)
  {
    HexRoundTrip(x);
    HexRoundTrip(y);
  }

  /** Comparing raw digests through hexadecimal is comparing their bytes. */
  lemma RawMatchIsDirect(a: RawDigest, b: RawDigest)
    ensures Match(RawToHex(a), RawToHex(b)) == Match(a, b)
  {
    hide HexEncode, SameIn, DifferentIn;
    HexSame(a.psha2, b.psha2);
    HexSame(a.sha1, b.sha1);
    HexSame(a.sha2_256, b.sha2_256);
    HexSame(a.sha2_512, b.sha2_512);
    HexSame(a.sha3_512, b.sha3_512);
    HexSame(a.sha3_384, b.sha3_384);
    HexSame(a.sha3_256, b.sha3_256);
    HexSame(a.sha3_224, b.sha3_224);
    HexSame(a.sha2_384, b.sha2_384);
  }

  datatype Expected = Skipped | OneOf(digests: seq<RawDigest>) | Missing

  /** `compare_measurement_digest`: the first listed digest that matches decides. */
  method CompareMeasurement(measurement: RawDigest, expected: Expected) returns (ok: bool)
    ensures ok <==> Accepted(measurement, expected)
  {
    hide RawToHex, SomeSame, SomeDifferent;
    match expected {
      case Skipped =>
        return true;
      case Missing =>
        return false;
      case OneOf(digests) =>
        for i := 0 to |digests|
          invariant forall j | 0 <= j < i :: !Agrees(measurement, digests[j])
        {
          var m := DigestMatch(RawToHex(measurement), RawToHex(digests[i]));
          RawMatchIsDirect(measurement, digests[i]);
          if m == Same {
            assert digests[i] in digests;
            return true;
          }
        }
        return false;
    }
  }

  /** The digests share a field that both give, and differ in no such field. */
  ghost predicate Agrees(a: RawDigest, b: RawDigest)
  {
    SomeSame(a, b) && !SomeDifferent(a, b)
  }

  /** When a measurement should be accepted, said without hexadecimal or counting. */
  ghost predicate Accepted(measurement: RawDigest, expected: Expected)
  {
    expected.Skipped? || (expected.OneOf? && exists d | d in expected.digests :: Agrees(measurement, d))
  }

  /** A measurement that gives only SHA2-256, as certificates do, is accepted if and only if a listed one has it. */
  lemma Sha256Decides(measurement: RawDigest, digests: seq<RawDigest>)
    requires measurement == NoDigest().(sha2_256 := measurement.sha2_256) && measurement.sha2_256 != []
    ensures Accepted(measurement, OneOf(digests)) <==>
            exists d | d in digests :: d.sha2_256 == measurement.sha2_256
  {
    if d :| d in digests && d.sha2_256 == measurement.sha2_256 { assert Agrees(measurement, d); }
  }

  /** A longer list of expected digests never causes a rejection. */
  lemma LongerListsAccept(measurement: RawDigest, digests: seq<RawDigest>, more: seq<RawDigest>)
    requires Accepted(measurement, OneOf(digests)) && forall d | d in digests :: d in more
    ensures Accepted(measurement, OneOf(more))
  {
    var d :| d in digests && Agrees(measurement, d);
    assert d in more;
  }
}
