/** The canonical text of a Rekor log entry that its signature is checked against. */
module Rekor {
  import opened Bytes
  import Base64
  import Digests
  import Utf8

  datatype LogEntry = LogEntry(body: string, integratedTime: uint64, logId: string, logIndex: uint64,
                               signedEntryTimestamp: Option<string>)

  datatype Bundle = Bundle(canonicalized: seq<byte>, signature: seq<byte>)

  function Decimal(n: nat): string
  {
    if n < 10 then [('0' as int + n) as char] else Decimal(n / 10) + [('0' as int + n % 10) as char]
  }

  /** The object with `body` and `id` between the quotes as they are. */
  function Object(body: string, time: nat, id: string, index: nat): string
  {
    "{\"body\":\"" + (body + "\"" + (",\"integratedTime\":" + (Decimal(time) + "," +
      ("\"logID\":\"" + (id + "\"" + (",\"logIndex\":" + (Decimal(index) + "}")))))))
  }

  function Canonical(e: LogEntry): string
  {
    Object(e.body, e.integratedTime, e.logId, e.logIndex)
  }

  /** Fails on a quote in the body or log ID, and without a decodable signature. */
  function FromLogEntry(e: LogEntry): Option<Bundle>
  {
    if '\"' in e.body || '\"' in e.logId || e.signedEntryTimestamp.None? then None
    else
      var signature := Base64.Decode(e.signedEntryTimestamp.value);
      if signature.None? then None else Some(Bundle(Utf8.Encode(Canonical(e)), signature.value))
  }

  /** Two texts equal up to the first `c` are equal before it and after it. */
  lemma {:induction false} SplitAt(x: string, y: string, c: char, u: string, v: string)
    requires c !in x && c !in y && x + [c] + u == y + [c] + v
    ensures x == y && u == v
  {
    var s := x + [c] + u;
    assert s[|x|] == c && s[|y|] == c;
    assert x == s[..|x|] && y == s[..|y|];
    assert u == s[|x| + 1..] && v == s[|y| + 1..];
  }

  function FromDecimal(s: string): int
  {
    if s == "" then 0 else FromDecimal(s[..|s| - 1]) * 10 + (s[|s| - 1] as int - '0' as int)
  }

  lemma {:induction false} DecimalReadsBack(n: nat)
    ensures FromDecimal(Decimal(n)) == n
    ensures forall i | 0 <= i < |Decimal(n)| :: '0' <= Decimal(n)[i] <= '9'
    ensures Decimal(n)[0] == '0' <==> n == 0
  {
    var s := Decimal(n);
    if n >= 10 {
      DecimalReadsBack(n / 10);
      assert s[..|s| - 1] == Decimal(n / 10);
    } else {
      assert s[..|s| - 1] == "";
    }
  }

  lemma SamePrefix(p: string, x: string, y: string)
    requires p + x == p + y
    ensures x == y
  {
    assert x == (p + x)[|p|..] && y == (p + y)[|p|..];
  }

  /**
   The signed bytes are unambiguous: two entries the converter accepts have the same
   bytes only if body, time, log ID and log index are all the same.
   */
  lemma CanonicalUnambiguous(a: LogEntry, b: LogEntry)
    requires FromLogEntry(a).Some? && FromLogEntry(b).Some?
    requires FromLogEntry(a).value.canonicalized == FromLogEntry(b).value.canonicalized
    ensures a.body == b.body && a.integratedTime == b.integratedTime && a.logId == b.logId && a.logIndex == b.logIndex
  {
    hide Base64.Decode, Decimal, FromDecimal, Utf8.Encode, Object;
    Utf8.Injective(Canonical(a), Canonical(b));
    ObjectUnambiguous(a, b);
    DecimalReadsBack(a.integratedTime);
    DecimalReadsBack(b.integratedTime);
    DecimalReadsBack(a.logIndex);
    DecimalReadsBack(b.logIndex);
  }

  lemma ObjectUnambiguous(a: LogEntry, b: LogEntry)
    requires '\"' !in a.body && '\"' !in a.logId && '\"' !in b.body && '\"' !in b.logId
    requires Canonical(a) == Canonical(b)
    ensures a.body == b.body && a.logId == b.logId
    ensures Decimal(a.integratedTime) == Decimal(b.integratedTime) && Decimal(a.logIndex) == Decimal(b.logIndex)
  {
    hide Decimal;
    var ta, tb := Decimal(a.integratedTime), Decimal(b.integratedTime);
    var ia, ib := Decimal(a.logIndex), Decimal(b.logIndex);
    var a5, b5 := ia + "}", ib + "}";
    var a4, b4 := ",\"logIndex\":" + a5, ",\"logIndex\":" + b5;
    var a3, b3 := "\"logID\":\"" + (a.logId + "\"" + a4), "\"logID\":\"" + (b.logId + "\"" + b4);
    var a2, b2 := ta + "," + a3, tb + "," + b3;
    var a1, b1 := ",\"integratedTime\":" + a2, ",\"integratedTime\":" + b2;
    SamePrefix("{\"body\":\"", a.body + "\"" + a1, b.body + "\"" + b1);
    SplitAt(a.body, b.body, '\"', a1, b1);
    SamePrefix(",\"integratedTime\":", a2, b2);
    DecimalReadsBack(a.integratedTime);
    DecimalReadsBack(b.integratedTime);
    SplitAt(ta, tb, ',', a3, b3);
    SamePrefix("\"logID\":\"", a.logId + "\"" + a4, b.logId + "\"" + b4);
    SplitAt(a.logId, b.logId, '\"', a4, b4);
    SamePrefix(",\"logIndex\":", a5, b5);
    assert ia == a5[..|a5| - 1] && ib == b5[..|b5| - 1];
  }

  /** How section 3.2.2.2 of RFC 8785 writes a character inside a string. */
  function Escape(c: char): (s: string)
    ensures |s| >= 1 && (|s| == 1 <==> c != '\"' && c != '\\' && c as int >= 0x20)
    ensures |s| == 1 ==> s == [c]
  {
    var n := c as int;
    if c == '\"' then "\\\"" else if c == '\\' then "\\\\"
    else if n == 0x8 then "\\b" else if n == 0x9 then "\\t" else if n == 0xA then "\\n"
    else if n == 0xC then "\\f" else if n == 0xD then "\\r"
    else if n < 0x20 then "\\u00" + [if n < 16 then '0' else '1', Digests.HexDigit(n % 16)]
    else [c]
  }

  /** The escapes that section 3.2.2.2 of RFC 8785 names, and two of the others. */
  lemma KnownEscapes()
    ensures Escape('\"') == "\\\"" && Escape('\\') == "\\\\"
    ensures Escape(0x8 as char) == "\\b" && Escape(0x9 as char) == "\\t" && Escape(0xA as char) == "\\n"
    ensures Escape(0xC as char) == "\\f" && Escape(0xD as char) == "\\r"
    ensures Escape(0x0 as char) == "\\u0000" && Escape(0x1F as char) == "\\u001f" && Escape('/') == "/"
  {
  }

  function EscapeAll(s: string): string
  {
    if s == "" then "" else Escape(s[0]) + EscapeAll(s[1..])
  }

  function Quote(s: string): string
  {
    "\"" + EscapeAll(s) + "\""
  }

  /** Members of an object: names and rendered values. */
  type Members = seq<(string, string)>

  function Joined(ms: Members): string
  {
    if ms == [] then ""
    else Quote(ms[0].0) + ":" + ms[0].1 + (if |ms| == 1 then "" else "," + Joined(ms[1..]))
  }

  /** An object in the form of RFC 8785: no white space, members in the order given. */
  function Rendered(ms: Members): string
  {
    "{" + Joined(ms) + "}"
  }

  /** The members of a log entry; its numbers are written out in digits. */
  function MembersOf(e: LogEntry): Members
  {
    [("body", Quote(e.body)), ("integratedTime", Decimal(e.integratedTime)),
     ("logID", Quote(e.logId)), ("logIndex", Decimal(e.logIndex))]
  }

  /** The entry as RFC 8785 canonicalizes it. */
  function Rfc8785(e: LogEntry): string
  {
    Rendered(MembersOf(e))
  }

  predicate Plain(s: string)
  {
    forall i | 0 <= i < |s| :: s[i] != '\"' && s[i] != '\\' && s[i] as int >= 0x20
  }

  lemma {:induction false} EscapedLength(s: string)
    ensures |EscapeAll(s)| >= |s|
    ensures |EscapeAll(s)| == |s| <==> Plain(s)
    ensures Plain(s) ==> EscapeAll(s) == s
  {
    if s == "" {
    } else {
      EscapedLength(s[1..]);
      assert Plain(s) <==> |Escape(s[0])| == 1 && Plain(s[1..]) by {
        assert forall i | 0 < i < |s| :: s[i] == s[1..][i - 1];
        assert forall i | 0 <= i < |s| - 1 :: s[1..][i] == s[i + 1];
      }
      assert s == [s[0]] + s[1..];
    }
  }

  lemma PlainNames()
    ensures Quote("body") == "\"body\"" && Quote("integratedTime") == "\"integratedTime\""
    ensures Quote("logID") == "\"logID\"" && Quote("logIndex") == "\"logIndex\""
  {
    hide EscapeAll;
    EscapedLength("body");
    EscapedLength("integratedTime");
    EscapedLength("logID");
    EscapedLength("logIndex");
  }

  lemma FourJoined(a: (string, string), b: (string, string), c: (string, string), d: (string, string))
    ensures Joined([d]) == Quote(d.0) + ":" + d.1
    ensures Joined([c, d]) == Quote(c.0) + ":" + c.1 + ("," + Joined([d]))
    ensures Joined([b, c, d]) == Quote(b.0) + ":" + b.1 + ("," + Joined([c, d]))
    ensures Joined([a, b, c, d]) == Quote(a.0) + ":" + a.1 + ("," + Joined([b, c, d]))
  {
    hide Quote;
    assert [c, d][1..] == [d] && [b, c, d][1..] == [c, d] && [a, b, c, d][1..] == [b, c, d];
  }

  /** The parts of the hard-coded text, each with the closing brace, from the last member on. */
  function IndexPart(index: string): string
  {
    ",\"logIndex\":" + (index + "}")
  }

  function IdPart(id: string, index: string): string
  {
    "\"logID\":\"" + (id + "\"" + IndexPart(index))
  }

  function TimePart(time: string, id: string, index: string): string
  {
    ",\"integratedTime\":" + (time + "," + IdPart(id, index))
  }

  lemma IndexMember(index: string, joined: string)
    requires joined == "\"logIndex\"" + ":" + index
    ensures "," + joined + "}" == IndexPart(index)
  {
    assert "," + "\"logIndex\"" + ":" == ",\"logIndex\":";
  }

  lemma IdMember(id: string, index: string, rest: string, joined: string)
    requires "," + rest + "}" == IndexPart(index) && joined == "\"logID\"" + ":" + ("\"" + id + "\"") + ("," + rest)
    ensures joined + "}" == IdPart(id, index)
  {
    hide IndexPart;
    assert "\"logID\"" + ":" + "\"" == "\"logID\":\"";
    assert joined + "}" == "\"logID\"" + ":" + "\"" + (id + "\"" + ("," + rest + "}"));
  }

  lemma TimeMember(time: string, id: string, index: string, rest: string, joined: string)
    requires rest + "}" == IdPart(id, index) && joined == "\"integratedTime\"" + ":" + time + ("," + rest)
    ensures "," + joined + "}" == TimePart(time, id, index)
  {
    hide IdPart;
    assert "," + "\"integratedTime\"" + ":" == ",\"integratedTime\":";
    assert "," + joined + "}" == "," + "\"integratedTime\"" + ":" + (time + "," + (rest + "}"));
  }

  lemma BodyMember(body: string, time: string, id: string, index: string, rest: string, joined: string)
    requires "," + rest + "}" == TimePart(time, id, index)
    requires joined == "\"body\"" + ":" + ("\"" + body + "\"") + ("," + rest)
    ensures "{" + joined + "}" == "{\"body\":\"" + (body + "\"" + TimePart(time, id, index))
  {
    hide TimePart;
    assert "{" + "\"body\"" + ":" + "\"" == "{\"body\":\"";
    assert "{" + joined + "}" == "{" + "\"body\"" + ":" + "\"" + (body + "\"" + ("," + rest + "}"));
  }

  /** The members of an entry with both strings between quotes as they are. */
  function MembersAsTheyAre(body: string, time: nat, id: string, index: nat): Members
  {
    [("body", "\"" + body + "\""), ("integratedTime", Decimal(time)),
     ("logID", "\"" + id + "\""), ("logIndex", Decimal(index))]
  }

  /** The hard-coded text is the rendering of the members with nothing escaped. */
  lemma ObjectIsRendered(body: string, time: nat, id: string, index: nat)
    ensures Object(body, time, id, index) == Rendered(MembersAsTheyAre(body, time, id, index))
  {
    hide Decimal, Joined;
    var ms := MembersAsTheyAre(body, time, id, index);
    PlainNames();
    FourJoined(ms[0], ms[1], ms[2], ms[3]);
    IndexMember(Decimal(index), Joined([ms[3]]));
    IdMember(id, Decimal(index), Joined([ms[3]]), Joined([ms[2], ms[3]]));
    TimeMember(Decimal(time), id, Decimal(index), Joined([ms[2], ms[3]]), Joined([ms[1], ms[2], ms[3]]));
    BodyMember(body, Decimal(time), id, Decimal(index), Joined([ms[1], ms[2], ms[3]]), Joined(ms));
  }

  /** The hard-coded text has the shape of the canonical one, up to escapes inside the two strings. */
  lemma SameShape(e: LogEntry)
    ensures Rfc8785(e) == Object(EscapeAll(e.body), e.integratedTime, EscapeAll(e.logId), e.logIndex)
  {
    hide EscapeAll, Decimal, Joined, Object;
    ObjectIsRendered(EscapeAll(e.body), e.integratedTime, EscapeAll(e.logId), e.logIndex);
  }

  /**
   An entry is accepted exactly if neither string has a quote and its timestamp is the
   Base64 text of the returned signature; the bytes that are signed are then the UTF-8 of
   the object with both strings as they are.
   */
  lemma BundleExactly(e: LogEntry, b: Bundle)
    ensures FromLogEntry(e) == Some(b) <==>
            && '\"' !in e.body && '\"' !in e.logId
            && e.signedEntryTimestamp == Some(Base64.Encode(b.signature))
            && b.canonicalized ==
               Utf8.Encode(Rendered(MembersAsTheyAre(e.body, e.integratedTime, e.logId, e.logIndex)))
  {
    hide Base64.Decode, Base64.Encode, Utf8.Encode, Object, Rendered, MembersAsTheyAre;
    ObjectIsRendered(e.body, e.integratedTime, e.logId, e.logIndex);
    if e.signedEntryTimestamp.Some? { Base64.DecodesExactly(e.signedEntryTimestamp.value, b.signature); }
  }

  /**
   The hard-coded bytes are those RFC 8785 requires exactly when neither string has a
   character that needs escaping.
   */
  lemma CanonicalExactly(e: LogEntry)
    requires FromLogEntry(e).Some?
    ensures FromLogEntry(e).value.canonicalized == Utf8.Encode(Rfc8785(e)) <==> Plain(e.body) && Plain(e.logId)
  {
    hide Base64.Decode, Decimal, Plain, EscapeAll, Rfc8785, Utf8.Encode;
    EscapedLength(e.body);
    EscapedLength(e.logId);
    SameShape(e);
    assert |Rfc8785(e)| - |Canonical(e)| == (|EscapeAll(e.body)| - |e.body|) + (|EscapeAll(e.logId)| - |e.logId|);
    if Utf8.Encode(Canonical(e)) == Utf8.Encode(Rfc8785(e)) { Utf8.Injective(Canonical(e), Rfc8785(e)); }
  }

  /** An entry that is accepted with a text RFC 8785 does not allow: its body is one backslash. */
  lemma BackslashNotEscaped() returns (e: LogEntry)
    ensures e.body == "\\" && FromLogEntry(e).Some?
    ensures FromLogEntry(e).value.canonicalized != Utf8.Encode(Rfc8785(e))
  {
    hide Utf8.Encode, Rfc8785, Canonical;
    e := LogEntry("\\", 0, "", 0, Some(""));
    assert Base64.Decode("") == Some([]);
    assert !Plain(e.body) by { assert e.body[0] == '\\'; }
    CanonicalExactly(e);
  }

  /** Order by code units, as section 3.2.3 of RFC 8785 sorts object keys. */
  predicate Less(a: string, b: string)
  {
    b != "" && (a == "" || a[0] < b[0] || (a[0] == b[0] && Less(a[1..], b[1..])))
  }

  ghost predicate Sorted(ms: Members)
  {
    forall i, j | 0 <= i < j < |ms| :: Less(ms[i].0, ms[j].0)
  }

  /** The members are in the required order, and the hard-coded text writes them so. */
  lemma KeysInOrder(e: LogEntry)
    ensures Sorted(MembersOf(e))
    ensures Plain(e.body) && Plain(e.logId) ==> Canonical(e) == Rendered(MembersOf(e))
  {
    hide Decimal, Quote, Plain, EscapeAll;
    var a, b := "logID", "logIndex";
    assert a[1..] == "ogID" && b[1..] == "ogIndex" && a[1..][1..] == "gID" && b[1..][1..] == "gIndex";
    assert "gID"[1..] == "ID" && "gIndex"[1..] == "Index" && "ID"[1..] == "D" && "Index"[1..] == "ndex";
    assert Less("D", "ndex") && Less("ID", "Index") && Less("gID", "gIndex") && Less("ogID", "ogIndex");
    EscapedLength(e.body);
    EscapedLength(e.logId);
    SameShape(e);
  }
}
