/**
 When the unescaped text of one log entry is the RFC 8785 text of another, so that a
 signature made for the other passes for the one.
 */
module RekorEscapes {
  import opened Bytes
  import opened Rekor
  import Base64
  import Digests
  import Utf8

  /** The only character whose escape the text can start with. */
  function Candidate(s: string): char
    requires s != ""
  {
    if s[0] != '\\' || |s| == 1 then s[0]
    else
      match s[1]
      case '\"' => '\"'
      case '\\' => '\\'
      case 'b' => 0x8 as char
      case 't' => 0x9 as char
      case 'n' => 0xA as char
      case 'f' => 0xC as char
      case 'r' => 0xD as char
      case _ =>
        if |s| < 6 || Digests.HexValue(s[5]).None? then ' '
        else ((if s[4] == '0' then 0 else 16) + Digests.HexValue(s[5]).value) as char
  }

  lemma CandidateIs(c: char, rest: string)
    ensures Candidate(Escape(c) + rest) == c
  {
    var s, n := Escape(c) + rest, c as int;
    assert s[0] == Escape(c)[0];
    if |Escape(c)| > 1 { assert s[1] == Escape(c)[1]; }
    if |Escape(c)| > 2 {
      assert s[4] == Escape(c)[4] && s[5] == Escape(c)[5] == Digests.HexDigit(n % 16);
    }
  }

  /** Undoes the escapes; `None` if the text is no result of escaping. */
  function Unescape(s: string): Option<string>
    decreases |s|
  {
    if s == "" then Some("")
    else
      var c := Candidate(s);
      if !(Escape(c) <= s) then None
      else
        var rest := Unescape(s[|Escape(c)|..]);
        if rest.None? then None else Some([c] + rest.value)
  }

  lemma {:induction false} UnescapeUndoes(t: string)
    ensures Unescape(EscapeAll(t)) == Some(t)
  {
    hide Escape, Candidate;
    if t == "" {
    } else {
      var s, e := EscapeAll(t), Escape(t[0]);
      CandidateIs(t[0], EscapeAll(t[1..]));
      assert s[|e|..] == EscapeAll(t[1..]);
      UnescapeUndoes(t[1..]);
      assert t == [t[0]] + t[1..];
    }
  }

  lemma {:induction false} UnescapedIsEscaped(s: string)
    requires Unescape(s).Some?
    ensures EscapeAll(Unescape(s).value) == s
    decreases |s|
  {
    hide Escape, Candidate;
    if s == "" {
    } else {
      var e, t := Escape(Candidate(s)), Unescape(s).value;
      UnescapedIsEscaped(s[|e|..]);
      assert t[1..] == Unescape(s[|e|..]).value;
      assert s == e + s[|e|..];
    }
  }

  /** Escaping is undone, and nothing but its results is. */
  lemma UnescapesExactly(s: string, t: string)
    ensures Unescape(s) == Some(t) <==> EscapeAll(t) == s
  {
    UnescapeUndoes(t);
    if Unescape(s).Some? { UnescapedIsEscaped(s); }
  }

  /** A quote in an escaped text comes right behind a backslash. */
  lemma {:induction false} QuoteIsEscaped(t: string, i: nat)
    requires i < |EscapeAll(t)| && EscapeAll(t)[i] == '\"'
    ensures i > 0 && EscapeAll(t)[i - 1] == '\\'
  {
    var e, rest := Escape(t[0]), EscapeAll(t[1..]);
    if i < |e| {
      assert e[i] == '\"';
    } else {
      assert EscapeAll(t)[i] == rest[i - |e|];
      QuoteIsEscaped(t[1..], i - |e|);
    }
  }

  lemma {:induction false} EscapesShow(t: string)
    ensures Plain(EscapeAll(t)) <==> Plain(t)
  {
    if t == "" {
    } else {
      var e, rest := Escape(t[0]), EscapeAll(t[1..]);
      EscapesShow(t[1..]);
      PlainSum(e, rest);
      PlainSum([t[0]], t[1..]);
      assert t == [t[0]] + t[1..];
      if |e| > 1 { assert e[0] == '\\'; }
    }
  }

  lemma PlainSum(x: string, y: string)
    ensures Plain(x + y) <==> Plain(x) && Plain(y)
  {
    var s := x + y;
    assert forall i | 0 <= i < |x| :: s[i] == x[i];
    assert forall i | 0 <= i < |y| :: s[|x| + i] == y[i];
  }

  /**
   A string without quotes and an escaped one, both followed by a quote and then by
   another member, are the same: a quote inside the escaped one would be taken for the
   end, and what follows it does not fit.
   */
  lemma EndsTogether(x: string, t: string, u: string, v: string)
    requires '\"' !in x && x + "\"" + u == EscapeAll(t) + "\"" + v
    requires |u| > 2 && u[0] == ',' && u[1] == '\"' && u[2] != ',' && v != "" && v[0] == ','
    ensures x == EscapeAll(t) && u == v
  {
    hide EscapeAll;
    var y, s := EscapeAll(t), x + "\"" + u;
    var n := |x|;
    assert s == y + "\"" + v;
    assert s[n] == '\"' && s[n + 1] == ',' && s[n + 2] == '\"' && s[n + 3] == u[2];
    assert s[|y|] == '\"' && s[|y| + 1] == ',';
    assert forall i | 0 <= i < |y| :: s[i] == y[i];
    assert forall i | 0 <= i < n :: s[i] == x[i];
    if n + 2 < |y| { QuoteIsEscaped(t, n + 2); }
    assert n == |y|;
    assert x == s[..n] == y && u == s[n + 1..] == v;
  }

  /** The hard-coded text of `a` is the canonical text of `b` only if `a` holds the escaped strings of `b`. */
  lemma SameTexts(a: LogEntry, b: LogEntry)
    requires '\"' !in a.body && '\"' !in a.logId && Canonical(a) == Rfc8785(b)
    ensures a.body == EscapeAll(b.body) && a.logId == EscapeAll(b.logId)
    ensures a.integratedTime == b.integratedTime && a.logIndex == b.logIndex
  {
    hide EscapeAll, Rfc8785, Decimal, FromDecimal;
    SameShape(b);
    var ta, ia := Decimal(a.integratedTime), Decimal(a.logIndex);
    var tb, ib := Decimal(b.integratedTime), Decimal(b.logIndex);
    var body, id := EscapeAll(b.body), EscapeAll(b.logId);
    SamePrefix("{\"body\":\"", a.body + "\"" + TimePart(ta, a.logId, ia), body + "\"" + TimePart(tb, id, ib));
    EndsTogether(a.body, b.body, TimePart(ta, a.logId, ia), TimePart(tb, id, ib));
    SamePrefix(",\"integratedTime\":", ta + "," + IdPart(a.logId, ia), tb + "," + IdPart(id, ib));
    DecimalReadsBack(a.integratedTime);
    DecimalReadsBack(b.integratedTime);
    SplitAt(ta, tb, ',', IdPart(a.logId, ia), IdPart(id, ib));
    SamePrefix("\"logID\":\"", a.logId + "\"" + IndexPart(ia), id + "\"" + IndexPart(ib));
    EndsTogether(a.logId, b.logId, IndexPart(ia), IndexPart(ib));
    SamePrefix(",\"logIndex\":", ia + "}", ib + "}");
    assert ia == (ia + "}")[..|ia + "}"| - 1] && ib == (ib + "}")[..|ib + "}"| - 1];
    DecimalReadsBack(a.logIndex);
    DecimalReadsBack(b.logIndex);
  }

  /** Another entry than `a`, whose canonical bytes are those the signature of `a` is checked against. */
  ghost predicate MistakenFor(a: LogEntry, b: LogEntry)
    requires FromLogEntry(a).Some?
  {
    && FromLogEntry(a).value.canonicalized == Utf8.Encode(Rfc8785(b))
    && !(a.body == b.body && a.integratedTime == b.integratedTime && a.logId == b.logId && a.logIndex == b.logIndex)
  }

  /**
   A signature made for the RFC 8785 text of one entry passes for another entry exactly
   when both strings of the latter are results of escaping and one of them shows it.
   */
  lemma MistakenExactly(a: LogEntry)
    requires FromLogEntry(a).Some?
    ensures (exists b :: MistakenFor(a, b)) <==>
            Unescape(a.body).Some? && Unescape(a.logId).Some? && !(Plain(a.body) && Plain(a.logId))
  {
    hide EscapeAll, Unescape, Plain, Rfc8785, Object, Utf8.Encode, Base64.Decode;
    if b :| MistakenFor(a, b) {
      Utf8.Injective(Canonical(a), Rfc8785(b));
      SameTexts(a, b);
      UnescapesExactly(a.body, b.body);
      UnescapesExactly(a.logId, b.logId);
      EscapesShow(b.body);
      EscapesShow(b.logId);
      EscapedLength(b.body);
      EscapedLength(b.logId);
    }
    if Unescape(a.body).Some? && Unescape(a.logId).Some? && !(Plain(a.body) && Plain(a.logId)) {
      var b := LogEntry(Unescape(a.body).value, a.integratedTime, Unescape(a.logId).value, a.logIndex, None);
      UnescapesExactly(a.body, b.body);
      UnescapesExactly(a.logId, b.logId);
      SameShape(b);
      EscapedLength(b.body);
      EscapedLength(b.logId);
      assert MistakenFor(a, b);
    }
  }

  /** Such a pair: a body of a backslash and the letter n, and a body of one line feed. */
  lemma LineFeedMistaken() returns (a: LogEntry, b: LogEntry)
    ensures a.body == "\\n" && b.body == "\n" && FromLogEntry(a).Some? && MistakenFor(a, b)
  {
    hide Utf8.Encode, Rfc8785;
    a, b := LogEntry("\\n", 0, "", 0, Some("")), LogEntry("\n", 0, "", 0, None);
    assert Base64.Decode("") == Some([]);
    assert b.body[1..] == "" && EscapeAll("") == "";
    assert EscapeAll(b.body) == Escape(b.body[0]) == a.body;
    SameShape(b);
  }
}
