/** `escapeXml` of both EPUB generators: the five predefined entities of XML 1.0
    (section 4.6 of the XML 1.0 recommendation), together with the decoder of
    those five entities that it is the inverse of. */
module Xml {

  /** The characters `escapeXml` rewrites. */
  predicate IsReserved(c: char) {
    c == '<' || c == '>' || c == '&' || c == '\'' || c == '"'
  }

  /** The reserved characters other than `&`: after escaping none of them is left. */
  predicate IsMarkup(c: char) {
    c == '<' || c == '>' || c == '\'' || c == '"'
  }

  const Lt: string := "&lt;"
  const Gt: string := "&gt;"
  const Amp: string := "&amp;"
  const Apos: string := "&apos;"
  const Quot: string := "&quot;"

  predicate StartsWith(t: string, p: string) {
    |p| <= |t| && t[..|p|] == p
  }

  /** One of the five predefined entity references begins at index `i` of `t`. */
  predicate EntityAt(t: string, i: nat)
    requires i <= |t|
  {
    var u := t[i..];
    StartsWith(u, Lt) || StartsWith(u, Gt) || StartsWith(u, Amp)
    || StartsWith(u, Apos) || StartsWith(u, Quot)
  }

  /** Text safe to place in XML character data or a quoted attribute: no markup
      character, and every `&` opens one of the five entity references. */
  predicate WellEscaped(t: string) {
    && (forall i :: 0 <= i < |t| ==> !IsMarkup(t[i]))
    && (forall i :: 0 <= i < |t| && t[i] == '&' ==> EntityAt(t, i))
  }

  /** The replacement the regular-expression callback returns for one match;
      characters the expression does not match are kept. */
  function EscapeChar(c: char): string {
    match c
    case '<' => Lt
    case '>' => Gt
    case '&' => Amp
    case '\'' => Apos
    case '"' => Quot
    case _ => [c]
  }

  /** `escapeXml(s)`: every character rewritten independently, left to right.
      The text never gets shorter and no markup character survives. */
  function EscapeXml(s: string): (r: string)
    ensures |r| >= |s|
    ensures forall i :: 0 <= i < |r| ==> !IsMarkup(r[i])
  {
    if |s| == 0 then []
    else
      var head := EscapeChar(s[0]);
      assert forall i :: 0 <= i < |head| ==> !IsMarkup(head[i]);
      head + EscapeXml(s[1..])
  }

  /** The character the text starting `t` stands for, and how many characters
      of `t` spell it: one of the five entity references, or else the first
      character itself. */
  function DecodeHead(t: string): (d: (char, nat))
    requires |t| > 0
    ensures 1 <= d.1 <= |t|
  {
    if StartsWith(t, Lt) then ('<', |Lt|)
    else if StartsWith(t, Gt) then ('>', |Gt|)
    else if StartsWith(t, Amp) then ('&', |Amp|)
    else if StartsWith(t, Apos) then ('\'', |Apos|)
    else if StartsWith(t, Quot) then ('"', |Quot|)
    else (t[0], 1)
  }

  /** Decodes the five predefined entity references; any other `&` and every
      other character is copied. This is the reading an XML parser gives to the
      character data `escapeXml` produces. */
  function UnescapeXml(t: string): string
    decreases |t|
  {
    if |t| == 0 then []
    else
      var d := DecodeHead(t);
      [d.0] + UnescapeXml(t[d.1..])
  }

  /** The character table of the replacement callback: the five reserved
      characters map to their entities, every other character to itself. */
  lemma EscapeTable(c: char)
    ensures c == '<' ==> EscapeXml([c]) == "&lt;"
    ensures c == '>' ==> EscapeXml([c]) == "&gt;"
    ensures c == '&' ==> EscapeXml([c]) == "&amp;"
    ensures c == '\'' ==> EscapeXml([c]) == "&apos;"
    ensures c == '"' ==> EscapeXml([c]) == "&quot;"
    ensures !IsReserved(c) ==> EscapeXml([c]) == [c]
  {
    assert EscapeXml([c]) == EscapeChar(c) + EscapeXml([]);
  }

  /** Escaping works character by character, so it distributes over concatenation. */
  lemma {:induction false} EscapeAppend(a: string, b: string)
    ensures EscapeXml(a + b) == EscapeXml(a) + EscapeXml(b)
    decreases |a|
  {
    if |a| == 0 {
      assert a + b == b;
    } else {
      assert (a + b)[0] == a[0];
      assert (a + b)[1..] == a[1..] + b;
      EscapeAppend(a[1..], b);
    }
  }

  lemma WellEscapedSuffix(t: string, k: nat)
    requires k <= |t|
    requires WellEscaped(t)
    ensures WellEscaped(t[k..])
  {
    var u := t[k..];
    forall j | 0 <= j < |u| && u[j] == '&'
      ensures EntityAt(u, j)
    {
      assert u[j..] == t[k + j..];
      assert t[k + j] == '&';
    }
  }

  lemma WellEscapedAppend(a: string, b: string)
    requires WellEscaped(a) && WellEscaped(b)
    ensures WellEscaped(a + b)
  {
    var t := a + b;
    forall i | 0 <= i < |t| && t[i] == '&'
      ensures EntityAt(t, i)
    {
      if i < |a| {
        assert a[i] == '&';
        assert EntityAt(a, i);
        assert t[i..] == a[i..] + b;
      } else {
        assert b[i - |a|] == '&';
        assert EntityAt(b, i - |a|);
        assert t[i..] == b[i - |a|..];
      }
    }
    forall i | 0 <= i < |t|
      ensures !IsMarkup(t[i])
    {
      if i < |a| { assert t[i] == a[i]; } else { assert t[i] == b[i - |a|]; }
    }
  }

  /** The replacement for one character is itself well escaped. */
  lemma EscapeCharWellEscaped(c: char)
    ensures WellEscaped(EscapeChar(c))
  {
    var e := EscapeChar(c);
    if IsReserved(c) {
      assert e[0..] == e;
      assert StartsWith(e, e);
      assert forall i :: 1 <= i < |e| ==> e[i] != '&' && !IsMarkup(e[i]);
    }
  }

  /** The output of `escapeXml` contains no `<`, `>`, `'` or `"`, and every `&` in
      it starts one of the five entity references. */
  lemma {:induction false} EscapeIsWellEscaped(s: string)
    ensures WellEscaped(EscapeXml(s))
  {
    if |s| > 0 {
      EscapeIsWellEscaped(s[1..]);
      EscapeCharWellEscaped(s[0]);
      WellEscapedAppend(EscapeChar(s[0]), EscapeXml(s[1..]));
    }
  }

  lemma NotStartsWith(t: string, p: string, k: nat)
    requires k < |p| && k < |t| && t[k] != p[k]
    ensures !StartsWith(t, p)
  {
    if |p| <= |t| {
      assert t[..|p|][k] == t[k];
    }
  }

  /** The head of an escaped character followed by anything decodes to that
      character and spans exactly its replacement. */
  lemma DecodeEscapedHead(c: char, rest: string)
    ensures var e := EscapeChar(c);
      |e + rest| > 0 && DecodeHead(e + rest) == (c, |e|)
  {
    var e := EscapeChar(c);
    var t := e + rest;
    assert t[..|e|] == e;
    assert t[0] == e[0];
    if !IsReserved(c) {
      NotStartsWith(t, Lt, 0);
      NotStartsWith(t, Gt, 0);
      NotStartsWith(t, Amp, 0);
      NotStartsWith(t, Apos, 0);
      NotStartsWith(t, Quot, 0);
    } else if c == '>' {
      assert t[1] == 'g';
      NotStartsWith(t, Lt, 1);
    } else if c == '&' {
      assert t[1] == 'a';
      NotStartsWith(t, Lt, 1);
      NotStartsWith(t, Gt, 1);
    } else if c == '\'' {
      assert t[1] == 'a' && t[2] == 'p';
      NotStartsWith(t, Lt, 1);
      NotStartsWith(t, Gt, 1);
      NotStartsWith(t, Amp, 2);
    } else if c == '"' {
      assert t[1] == 'q';
      NotStartsWith(t, Lt, 1);
      NotStartsWith(t, Gt, 1);
      NotStartsWith(t, Amp, 1);
      NotStartsWith(t, Apos, 1);
    }
  }

  /** Decoding the escape of one character, followed by anything, yields that
      character followed by the decoding of the rest. */
  lemma UnescapeStep(c: char, rest: string)
    ensures UnescapeXml(EscapeChar(c) + rest) == [c] + UnescapeXml(rest)
  {
    var e := EscapeChar(c);
    DecodeEscapedHead(c, rest);
    assert (e + rest)[|e|..] == rest;
  }

  /** Decoding the entities recovers the input exactly. */
  lemma {:induction false} UnescapeEscape(s: string)
    ensures UnescapeXml(EscapeXml(s)) == s
  {
    if |s| > 0 {
      var e := EscapeXml(s[1..]);
      assert EscapeXml(s) == EscapeChar(s[0]) + e;
      UnescapeStep(s[0], e);
      UnescapeEscape(s[1..]);
      assert s == [s[0]] + s[1..];
    }
  }

  /** In well-escaped text the head that decodes to a character is spelled
      exactly by that character's replacement. */
  lemma DecodeWellEscapedHead(t: string)
    requires |t| > 0 && WellEscaped(t)
    ensures var d := DecodeHead(t); t[..d.1] == EscapeChar(d.0)
  {
    if t[0] == '&' {
      assert EntityAt(t, 0);
      assert t[0..] == t;
    } else {
      assert !IsMarkup(t[0]);
      NotStartsWith(t, Lt, 0);
      NotStartsWith(t, Gt, 0);
      NotStartsWith(t, Amp, 0);
      NotStartsWith(t, Apos, 0);
      NotStartsWith(t, Quot, 0);
    }
  }

  /** The range of `escapeXml` is exactly the well-escaped text: re-escaping the
      decoding of well-escaped text gives it back. */
  lemma {:induction false} EscapeUnescape(t: string)
    requires WellEscaped(t)
    ensures EscapeXml(UnescapeXml(t)) == t
    decreases |t|
  {
    if |t| > 0 {
      var d := DecodeHead(t);
      var u := UnescapeXml(t[d.1..]);
      DecodeWellEscapedHead(t);
      WellEscapedSuffix(t, d.1);
      EscapeUnescape(t[d.1..]);
      assert ([d.0] + u)[1..] == u;
      assert EscapeXml([d.0] + u) == EscapeChar(d.0) + EscapeXml(u);
      assert t == t[..d.1] + t[d.1..];
    }
  }

  /** `escapeXml` is the identity exactly on strings with no reserved character. */
  lemma {:induction false} EscapeIdentityIff(s: string)
    ensures EscapeXml(s) == s <==> forall i :: 0 <= i < |s| ==> !IsReserved(s[i])
  {
    if |s| > 0 {
      EscapeIdentityIff(s[1..]);
      var e := EscapeChar(s[0]);
      assert EscapeXml(s) == e + EscapeXml(s[1..]);
      if EscapeXml(s) == s {
        assert |e| == 1;
        assert EscapeXml(s[1..]) == s[1..] by {
          assert EscapeXml(s)[1..] == EscapeXml(s[1..]);
        }
        assert !IsReserved(s[0]);
        assert forall i :: 1 <= i < |s| ==> s[i] == s[1..][i - 1];
      }
      if forall i :: 0 <= i < |s| ==> !IsReserved(s[i]) {
        assert forall i :: 0 <= i < |s| - 1 ==> s[1..][i] == s[i + 1];
        assert e == [s[0]];
      }
    }
  }
}
