/** Conversion of public keys between raw bytes and PEM text. */
module Pem {
  import opened Bytes
  import Base64

  const HEADER := "-----BEGIN PUBLIC KEY-----"
  const FOOTER := "-----END PUBLIC KEY-----"

  /** The characters Unicode calls white space. */
  predicate IsWhitespace(c: char)
  {
    var n := c as int;
    || 0x9 <= n <= 0xD || n == 0x20 || n == 0x85 || n == 0xA0 || n == 0x1680 || 0x2000 <= n <= 0x200A
    || n == 0x2028 || n == 0x2029 || n == 0x202F || n == 0x205F || n == 0x3000
  }

  /** The 25 characters with the Unicode property White_Space. */
  lemma WhitespaceExactly(c: char)
    ensures IsWhitespace(c) <==>
            c as int in {0x9, 0xA, 0xB, 0xC, 0xD, 0x20, 0x85, 0xA0, 0x1680, 0x2000, 0x2001, 0x2002, 0x2003, 0x2004,
                         0x2005, 0x2006, 0x2007, 0x2008, 0x2009, 0x200A, 0x2028, 0x2029, 0x202F, 0x205F, 0x3000}
  {
  }

  function TrimStart(s: string): string
  {
    if s != "" && IsWhitespace(s[0]) then TrimStart(s[1..]) else s
  }

  function TrimEnd(s: string): string
  {
    if s != "" && IsWhitespace(s[|s| - 1]) then TrimEnd(s[..|s| - 1]) else s
  }

  function RemoveNewlines(s: string): string
  {
    if s == "" then "" else (if s[0] == '\n' then "" else [s[0]]) + RemoveNewlines(s[1..])
  }

  /** What is between a prefix and a suffix; `None` without them. */
  function Strip(p: string, prefix: string, suffix: string): Option<string>
  {
    if !(prefix <= p) then None
    else
      var q := p[|prefix|..];
      if |q| < |suffix| || q[|q| - |suffix|..] != suffix then None else Some(q[..|q| - |suffix|])
  }

  lemma StripsExactly(p: string, prefix: string, suffix: string, body: string)
    ensures Strip(p, prefix, suffix) == Some(body) <==> p == prefix + body + suffix
  {
    if p == prefix + body + suffix {
      var q := p[|prefix|..];
      assert q == body + suffix;
      assert q[|body|..] == suffix && q[..|body|] == body;
    }
    if Strip(p, prefix, suffix) == Some(body) {
      var q := p[|prefix|..];
      assert q == body + suffix;
    }
  }

  /** Panics without header and footer; otherwise decodes what is between them. */
  function PemToRaw(pem: string): Outcome<Option<seq<byte>>>
  {
    var body := Strip(TrimEnd(TrimStart(pem)), HEADER, FOOTER);
    if body.None? then Panic else Done(Base64.Decode(RemoveNewlines(body.value)))
  }

  /** The text with a line break before every 64th character, counting from `i`. */
  function Wrapped(s: string, i: nat): string
  {
    if s == "" then "" else (if i % 64 == 0 then "\n" else "") + [s[0]] + Wrapped(s[1..], i + 1)
  }

  function RawToPem(key: seq<byte>): string
  {
    HEADER + Wrapped(Base64.Encode(key), 0) + "\n" + FOOTER + "\n"
  }

  /** `convert_raw_to_pem`, character by character. */
  method ConvertRawToPem(key: seq<byte>) returns (pem: string)
    ensures pem == RawToPem(key)
  {
    hide Base64.Encode;
    pem := HEADER;
    var text := Base64.Encode(key);
    var i := 0;
    while i < |text|
      invariant 0 <= i <= |text|
      invariant pem + Wrapped(text[i..], i) == HEADER + Wrapped(text, 0)
    {
      assert text[i..][0] == text[i] && text[i..][1..] == text[i + 1..];
      if i % 64 == 0 {
        pem := pem + "\n";
      }
      pem := pem + [text[i]];
      i := i + 1;
    }
    pem := pem + "\n" + FOOTER + "\n";
  }

  lemma {:induction false} UnwrapsTo(s: string, i: nat)
    requires forall k | 0 <= k < |s| :: s[k] != '\n'
    ensures RemoveNewlines(Wrapped(s, i) + "\n") == s
  {
    if s == "" {
      assert Wrapped(s, i) + "\n" == "\n";
      assert "\n"[1..] == "";
    } else {
      UnwrapsTo(s[1..], i + 1);
      var tail := [s[0]] + Wrapped(s[1..], i + 1) + "\n";
      assert tail[1..] == Wrapped(s[1..], i + 1) + "\n";
      assert RemoveNewlines(tail) == [s[0]] + s[1..] == s;
      if i % 64 == 0 {
        assert Wrapped(s, i) + "\n" == "\n" + tail;
        assert ("\n" + tail)[1..] == tail;
      } else {
        assert Wrapped(s, i) + "\n" == tail;
      }
    }
  }

  lemma {:induction false} NoNewlines(b: seq<byte>)
    ensures forall k | 0 <= k < |Base64.Encode(b)| :: Base64.Encode(b)[k] != '\n'
    decreases |b|
  {
    if |b| >= 3 { NoNewlines(b[3..]); }
  }

  /** The lines of the body: all of 64 characters but the last, which is not empty. */
  function Lines(s: string): seq<string>
  {
    if s == "" then [] else if |s| <= 64 then [s] else [s[..64]] + Lines(s[64..])
  }

  function Broken(lines: seq<string>): string
  {
    if lines == [] then "" else "\n" + lines[0] + Broken(lines[1..])
  }

  /** No line break where the count is no multiple of 64. */
  lemma {:induction false} WrappedLine(s: string, n: nat, i: nat)
    requires n <= |s| && forall k | i <= k < i + n :: k % 64 != 0
    ensures Wrapped(s, i) == s[..n] + Wrapped(s[n..], i + n)
    decreases n
  {
    if n == 0 {
      assert s[0..] == s;
    } else {
      assert i % 64 != 0;
      WrappedLine(s[1..], n - 1, i + 1);
      assert s[1..][n - 1..] == s[n..] && [s[0]] + s[1..][..n - 1] == s[..n];
    }
  }

  lemma {:induction false} LinesAreFull(s: string)
    ensures forall k | 0 <= k < |Lines(s)| :: 0 < |Lines(s)[k]| <= 64 && (k < |Lines(s)| - 1 ==> |Lines(s)[k]| == 64)
    decreases |s|
  {
    if |s| <= 64 {
    } else {
      LinesAreFull(s[64..]);
    }
  }

  lemma FirstLine(s: string, n: nat, i: nat)
    requires 0 < n <= |s| && n <= 64 && i % 64 == 0
    ensures Wrapped(s, i) == "\n" + s[..n] + Wrapped(s[n..], i + n)
  {
    assert Wrapped(s, i) == "\n" + [s[0]] + Wrapped(s[1..], i + 1);
    hide Wrapped;
    forall k | i + 1 <= k < i + 1 + (n - 1) ensures k % 64 != 0 {
      BetweenBreaks(i, k);
    }
    WrappedLine(s[1..], n - 1, i + 1);
    assert s[1..][n - 1..] == s[n..] && [s[0]] + s[1..][..n - 1] == s[..n];
  }

  lemma BetweenBreaks(i: nat, k: nat)
    requires i % 64 == 0 && i < k < i + 64
    ensures k % 64 != 0
  {
  }

  /** The wrapped text is its lines, each behind a line break, as section 2 of RFC 7468 has it. */
  lemma {:induction false} WrappedInLines(s: string, i: nat)
    requires i % 64 == 0
    ensures Wrapped(s, i) == Broken(Lines(s))
    ensures forall k | 0 <= k < |Lines(s)| :: 0 < |Lines(s)[k]| <= 64 && (k < |Lines(s)| - 1 ==> |Lines(s)[k]| == 64)
    decreases |s|
  {
    hide Wrapped;
    LinesAreFull(s);
    if s == "" {
      NothingWrapped(i);
    } else if |s| <= 64 {
      FirstLine(s, |s|, i);
      NothingWrapped(i + |s|);
      assert s[..|s|] == s && s[|s|..] == "";
    } else {
      FirstLine(s, 64, i);
      WrappedInLines(s[64..], i + 64);
      assert Lines(s)[1..] == Lines(s[64..]);
    }
  }

  lemma NothingWrapped(i: nat)
    ensures Wrapped("", i) == ""
  {
  }

  /** The text has the prefix and the suffix, which may overlap. */
  predicate Enclosed(p: string, prefix: string, suffix: string)
  {
    prefix <= p && |p| >= |suffix| && p[|p| - |suffix|..] == suffix
  }

  lemma StripFailsExactly(p: string, prefix: string, suffix: string)
    ensures Strip(p, prefix, suffix).None? <==> !Enclosed(p, prefix, suffix) || |p| < |prefix| + |suffix|
  {
    if prefix <= p && |p| >= |prefix| + |suffix| {
      var q := p[|prefix|..];
      assert q[|q| - |suffix|..] == p[|p| - |suffix|..];
    }
  }

  /** `looks_like_pem`: header and footer are there, once white space is trimmed. */
  predicate LooksLikePem(s: string)
  {
    Enclosed(TrimEnd(TrimStart(s)), HEADER, FOOTER)
  }

  /**
   Reading panics exactly if the text does not look like PEM, or header and footer
   overlap: both hold five dashes in a row.
   */
  lemma PanicsExactly(pem: string)
    ensures PemToRaw(pem).Panic? <==> !LooksLikePem(pem) || |TrimEnd(TrimStart(pem))| < |HEADER| + |FOOTER|
  {
    hide Strip, Enclosed, TrimStart, TrimEnd, Base64.Decode, RemoveNewlines;
    StripFailsExactly(TrimEnd(TrimStart(pem)), HEADER, FOOTER);
  }

  /** A text in which header and footer share five dashes. */
  const OVERLAPPING := "-----BEGIN PUBLIC KEY" + FOOTER

  lemma OverlapIsTrimmed(s: string)
    requires s != "" && s[0] == '-' && s[|s| - 1] == '-'
    ensures TrimStart(s) == s && TrimEnd(s) == s
  {
  }

  /** Such a text looks like PEM, and reading it panics. */
  lemma OverlapPanics()
    ensures LooksLikePem(OVERLAPPING) && PemToRaw(OVERLAPPING).Panic?
  {
    hide TrimStart, TrimEnd, PemToRaw;
    var s := OVERLAPPING;
    OverlapIsTrimmed(s);
    assert HEADER == s[..|HEADER|];
    PanicsExactly(s);
  }

  ghost predicate AllWhitespace(s: string)
  {
    forall i | 0 <= i < |s| :: IsWhitespace(s[i])
  }

  lemma {:induction false} StartTrimmed(s: string) returns (k: nat)
    ensures k <= |s| && AllWhitespace(s[..k]) && TrimStart(s) == s[k..]
  {
    hide IsWhitespace;
    if s != "" && IsWhitespace(s[0]) {
      var n := StartTrimmed(s[1..]);
      k := n + 1;
      assert forall i | 0 < i < k :: s[..k][i] == s[1..][..n][i - 1];
      assert s[1..][n..] == s[k..];
    } else {
      k := 0;
    }
  }

  lemma {:induction false} EndTrimmed(s: string) returns (k: nat)
    ensures k <= |s| && AllWhitespace(s[k..]) && TrimEnd(s) == s[..k]
    decreases |s|
  {
    hide IsWhitespace;
    var last := |s| - 1;
    if s != "" && IsWhitespace(s[last]) {
      k := EndTrimmed(s[..last]);
      assert forall i | 0 <= i < last - k :: s[k..][i] == s[..last][k..][i];
      assert s[..last][..k] == s[..k];
    } else {
      k := |s|;
    }
  }

  lemma {:induction false} TrimsStart(w: string, s: string)
    requires AllWhitespace(w) && s != "" && !IsWhitespace(s[0])
    ensures TrimStart(w + s) == s
  {
    hide IsWhitespace;
    if w == "" {
      assert w + s == s;
    } else {
      assert (w + s)[1..] == w[1..] + s;
      TrimsStart(w[1..], s);
    }
  }

  lemma {:induction false} TrimsEnd(s: string, w: string)
    requires AllWhitespace(w) && s != "" && !IsWhitespace(s[|s| - 1])
    ensures TrimEnd(s + w) == s
    decreases |w|
  {
    hide IsWhitespace;
    if w == "" {
      assert s + w == s;
    } else {
      var last := |w| - 1;
      assert (s + w)[..|s + w| - 1] == s + w[..last];
      TrimsEnd(s, w[..last]);
    }
  }

  /** A body between header and footer, with white space around them only. */
  ghost predicate Framed(pem: string, before: string, body: string, after: string)
  {
    AllWhitespace(before) && AllWhitespace(after) && pem == before + (HEADER + body + FOOTER) + after
  }

  /** Removing line breaks keeps everything else, in order. */
  lemma {:induction false} NewlinesRemoved(a: string, b: string)
    ensures RemoveNewlines(a + b) == RemoveNewlines(a) + RemoveNewlines(b)
    ensures '\n' !in RemoveNewlines(a)
    ensures '\n' !in a ==> RemoveNewlines(a) == a
  {
    if a == "" {
      assert a + b == b;
    } else {
      assert (a + b)[1..] == a[1..] + b;
      NewlinesRemoved(a[1..], b);
      assert a == [a[0]] + a[1..];
    }
  }

  lemma Trimmed(before: string, inner: string, after: string)
    requires AllWhitespace(before) && AllWhitespace(after)
    requires inner != "" && inner[0] == '-' && inner[|inner| - 1] == '-'
    ensures TrimEnd(TrimStart(before + inner + after)) == inner
  {
    assert !IsWhitespace('-');
    hide IsWhitespace, TrimStart, TrimEnd;
    assert before + inner + after == before + (inner + after);
    TrimsStart(before, inner + after);
    TrimsEnd(inner, after);
  }

  lemma FramedReads(pem: string, before: string, body: string, after: string)
    requires Framed(pem, before, body, after)
    ensures PemToRaw(pem) == Done(Base64.Decode(RemoveNewlines(body)))
  {
    hide Base64.Decode, RemoveNewlines, TrimStart, TrimEnd, Strip, AllWhitespace;
    var inner := HEADER + body + FOOTER;
    assert HEADER[0] == '-' && FOOTER[|FOOTER| - 1] == '-';
    assert inner[0] == HEADER[0] && inner[|inner| - 1] == FOOTER[|FOOTER| - 1];
    Trimmed(before, inner, after);
    StripsExactly(inner, HEADER, FOOTER, body);
  }

  lemma ReadIsFramed(pem: string, body: string) returns (before: string, after: string)
    requires Strip(TrimEnd(TrimStart(pem)), HEADER, FOOTER) == Some(body)
    ensures Framed(pem, before, body, after)
  {
    hide TrimStart, TrimEnd, Strip, AllWhitespace;
    var i := StartTrimmed(pem);
    var j := EndTrimmed(pem[i..]);
    before, after := pem[..i], pem[i..][j..];
    StripsExactly(pem[i..][..j], HEADER, FOOTER, body);
    assert pem == before + pem[i..][..j] + after;
  }

  /** A text is read exactly if it is a body between header and footer, and then the body is decoded. */
  lemma PemReadsExactly(pem: string, r: Option<seq<byte>>)
    ensures PemToRaw(pem) == Done(r) <==>
            exists before, body, after ::
              Framed(pem, before, body, after) && r == Base64.Decode(RemoveNewlines(body))
  {
    hide Base64.Decode, RemoveNewlines, TrimStart, TrimEnd, Strip, Framed;
    if PemToRaw(pem) == Done(r) {
      var body := Strip(TrimEnd(TrimStart(pem)), HEADER, FOOTER).value;
      var before, after := ReadIsFramed(pem, body);
    }
    if before, body, after :| Framed(pem, before, body, after) && r == Base64.Decode(RemoveNewlines(body)) {
      FramedReads(pem, before, body, after);
    }
  }

  /** Every byte string survives the way to PEM and back. */
  lemma PemRoundTrip(key: seq<byte>)
    ensures PemToRaw(RawToPem(key)) == Done(Some(key))
  {
    hide Base64.Decode, Base64.Encode, PemToRaw, Wrapped, RemoveNewlines;
    var text := Base64.Encode(key);
    var body := Wrapped(text, 0) + "\n";
    assert RawToPem(key) == "" + (HEADER + body + FOOTER) + "\n";
    assert IsWhitespace('\n');
    FramedReads(RawToPem(key), "", body, "\n");
    NoNewlines(key);
    UnwrapsTo(text, 0);
    Base64.RoundTrip(key);
  }
}
