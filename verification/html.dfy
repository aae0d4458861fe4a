/** escapeHtml of the browser client: five global replacements, ampersand
    first, that make text safe to place inside HTML markup. */
module Html {

  /** String.prototype.replace with a one-character global pattern: every
      occurrence of c, scanning left to right, is replaced by rep, and the
      inserted text is not scanned again. */
  function ReplaceAll(s: string, c: char, rep: string): (r: string)
    ensures c !in s ==> r == s
    decreases |s|
  {
    if |s| == 0 then []
    else (if s[0] == c then rep else [s[0]]) + ReplaceAll(s[1..], c, rep)
  }

  /** escapeHtml on a string argument. */
  function EscapeHtml(s: string): string {
    ReplaceAll(ReplaceAll(ReplaceAll(ReplaceAll(ReplaceAll(s, '&', "&amp;"), '<', "&lt;"), '>', "&gt;"), '"', "&quot;"), '\'', "&#039;")
  }

  /** The five characters escapeHtml rewrites. */
  predicate Special(c: char) {
    c == '&' || c == '<' || c == '>' || c == '"' || c == '\''
  }

  /** The entity each special character becomes; every other character
      stands for itself. */
  function EscapeChar(c: char): (r: string)
    ensures Special(c) <==> |r| > 1
    ensures !Special(c) <==> r == [c]
    ensures forall i :: 0 <= i < |r| ==> r[i] != '<' && r[i] != '>' && r[i] != '"' && r[i] != '\''
  {
    match c
    case '&' => "&amp;"
    case '<' => "&lt;"
    case '>' => "&gt;"
    case '"' => "&quot;"
    case '\'' => "&#039;"
    case _ => [c]
  }

  /** The per-character reading of the escape: each character replaced by
      its entity, in order. */
  function Escaped(s: string): (r: string)
    decreases |s|
  {
    if |s| == 0 then [] else EscapeChar(s[0]) + Escaped(s[1..])
  }

  lemma {:induction false} ReplaceAppend(a: string, b: string, c: char, rep: string)
    ensures ReplaceAll(a + b, c, rep) == ReplaceAll(a, c, rep) + ReplaceAll(b, c, rep)
    decreases |a|
  {
    if |a| == 0 {
      assert a + b == b;
    } else {
      assert (a + b)[1..] == a[1..] + b;
      ReplaceAppend(a[1..], b, c, rep);
    }
  }

  /** escapeHtml works on the pieces of a concatenation independently. */
  lemma EscapeHtmlAppend(a: string, b: string)
    ensures EscapeHtml(a + b) == EscapeHtml(a) + EscapeHtml(b)
  {
    var a1, b1 := ReplaceAll(a, '&', "&amp;"), ReplaceAll(b, '&', "&amp;");
    ReplaceAppend(a, b, '&', "&amp;");
    var a2, b2 := ReplaceAll(a1, '<', "&lt;"), ReplaceAll(b1, '<', "&lt;");
    ReplaceAppend(a1, b1, '<', "&lt;");
    var a3, b3 := ReplaceAll(a2, '>', "&gt;"), ReplaceAll(b2, '>', "&gt;");
    ReplaceAppend(a2, b2, '>', "&gt;");
    var a4, b4 := ReplaceAll(a3, '"', "&quot;"), ReplaceAll(b3, '"', "&quot;");
    ReplaceAppend(a3, b3, '"', "&quot;");
    ReplaceAppend(a4, b4, '\'', "&#039;");
  }

  lemma ReplaceOne(c: char, d: char, rep: string)
    ensures ReplaceAll([c], d, rep) == if c == d then rep else [c]
  {
    assert [c][1..] == [];
  }

  /** The replacements after the ampersand's, in their order. */
  function AfterAmp(s: string): string {
    ReplaceAll(ReplaceAll(ReplaceAll(ReplaceAll(s, '<', "&lt;"), '>', "&gt;"), '"', "&quot;"), '\'', "&#039;")
  }

  lemma AfterAmpUntouched(s: string)
    requires '<' !in s && '>' !in s && '"' !in s && '\'' !in s
    ensures AfterAmp(s) == s
  {
  }

  lemma AfterAmpLt()
    ensures AfterAmp("<") == "&lt;"
  {
    ReplaceOne('<', '<', "&lt;");
    AfterAmpTail("&lt;");
  }

  lemma AfterAmpGt()
    ensures AfterAmp(">") == "&gt;"
  {
    ReplaceOne('>', '>', "&gt;");
    AfterAmpTail("&gt;");
  }

  lemma AfterAmpQuot()
    ensures AfterAmp("\"") == "&quot;"
  {
    ReplaceOne('"', '"', "&quot;");
    AfterAmpTail("&quot;");
  }

  lemma AfterAmpApos()
    ensures AfterAmp("'") == "&#039;"
  {
    ReplaceOne('\'', '\'', "&#039;");
  }

  /** An entity written by one replacement passes the later ones unchanged. */
  lemma AfterAmpTail(e: string)
    requires '<' !in e && '>' !in e && '"' !in e && '\'' !in e
    ensures ReplaceAll(ReplaceAll(ReplaceAll(e, '>', "&gt;"), '"', "&quot;"), '\'', "&#039;") == e
  {
  }

  /** On one character the five replacements produce its entity. Because the
      ampersand goes first, the ampersands of the later entities survive. */
  lemma EscapeHtmlChar(c: char)
    ensures EscapeHtml([c]) == EscapeChar(c)
  {
    var first := ReplaceAll([c], '&', "&amp;");
    assert EscapeHtml([c]) == AfterAmp(first);
    assert first == EscapeAmp(c) by {
      ReplaceOne(c, '&', "&amp;");
    }
    AfterAmpOf(c);
  }

  /** What the ampersand replacement makes of one character. */
  function EscapeAmp(c: char): string {
    if c == '&' then "&amp;" else [c]
  }

  lemma AfterAmpOf(c: char)
    ensures AfterAmp(EscapeAmp(c)) == EscapeChar(c)
  {
    if c == '&' {
      AfterAmpUntouched("&amp;");
    } else if c == '<' {
      AfterAmpLt();
    } else if c == '>' {
      AfterAmpGt();
    } else if c == '"' {
      AfterAmpQuot();
    } else if c == '\'' {
      AfterAmpApos();
    } else {
      AfterAmpUntouched([c]);
    }
  }

  /** The five sequential replacements equal the per-character map. */
  lemma {:induction false} EscapeHtmlIsMap(s: string)
    ensures EscapeHtml(s) == Escaped(s)
    decreases |s|
  {
    if |s| == 0 {
    } else {
      assert s == [s[0]] + s[1..];
      EscapeHtmlAppend([s[0]], s[1..]);
      EscapeHtmlChar(s[0]);
      EscapeHtmlIsMap(s[1..]);
    }
  }

  predicate NoSpecial(s: string) {
    forall i :: 0 <= i < |s| ==> !Special(s[i])
  }

  /** Nothing that could open a tag or close an attribute value is left. */
  lemma {:induction false} EscapedSafe(s: string)
    ensures forall i :: 0 <= i < |Escaped(s)| ==>
      Escaped(s)[i] != '<' && Escaped(s)[i] != '>' && Escaped(s)[i] != '"' && Escaped(s)[i] != '\''
    decreases |s|
  {
    if |s| > 0 {
      EscapedSafe(s[1..]);
      var head, tail := EscapeChar(s[0]), Escaped(s[1..]);
      assert forall i :: |head| <= i < |head + tail| ==> (head + tail)[i] == tail[i - |head|];
    }
  }

  /** The map never shortens its input and keeps the length exactly when
      there is nothing to escape, in which case it is the identity. */
  lemma {:induction false} EscapedLength(s: string)
    ensures |Escaped(s)| >= |s|
    ensures |Escaped(s)| == |s| <==> NoSpecial(s)
    ensures NoSpecial(s) <==> Escaped(s) == s
    decreases |s|
  {
    if |s| > 0 {
      EscapedLength(s[1..]);
      assert NoSpecial(s) <==> !Special(s[0]) && NoSpecial(s[1..]) by {
        assert forall i :: 1 <= i < |s| ==> s[i] == s[1..][i - 1];
      }
      if Escaped(s) == s {
        assert |Escaped(s)| == |s|;
      }
      if NoSpecial(s) {
        assert s == [s[0]] + s[1..];
      }
    }
  }

  /** escapeHtml never emits '<', '>', '"' or '\''. */
  lemma EscapeHtmlSafe(s: string)
    ensures forall i :: 0 <= i < |EscapeHtml(s)| ==>
      EscapeHtml(s)[i] != '<' && EscapeHtml(s)[i] != '>' && EscapeHtml(s)[i] != '"' && EscapeHtml(s)[i] != '\''
  {
    EscapeHtmlIsMap(s);
    EscapedSafe(s);
  }

  /** escapeHtml leaves a string alone exactly when it has no special
      character, and otherwise makes it strictly longer. */
  lemma EscapeHtmlIdentity(s: string)
    ensures EscapeHtml(s) == s <==> NoSpecial(s)
    ensures |EscapeHtml(s)| >= |s|
    ensures |EscapeHtml(s)| == |s| <==> NoSpecial(s)
  {
    EscapeHtmlIsMap(s);
    EscapedLength(s);
  }

  /** Reading the entities back: the inverse of the escape, which shows that
      no information is lost. An ampersand that starts none of the five
      entities is kept as it is. */
  function Unescape(t: string): string
    decreases |t|
  {
    if |t| == 0 then []
    else if t[0] != '&' then [t[0]] + Unescape(t[1..])
    else if |t| >= 5 && t[..5] == "&amp;" then "&" + Unescape(t[5..])
    else if |t| >= 4 && t[..4] == "&lt;" then "<" + Unescape(t[4..])
    else if |t| >= 4 && t[..4] == "&gt;" then ">" + Unescape(t[4..])
    else if |t| >= 6 && t[..6] == "&quot;" then "\"" + Unescape(t[6..])
    else if |t| >= 6 && t[..6] == "&#039;" then "'" + Unescape(t[6..])
    else "&" + Unescape(t[1..])
  }

  lemma UnescapeStep(c: char, rest: string)
    ensures Unescape(EscapeChar(c) + rest) == [c] + Unescape(rest)
  {
    var e := EscapeChar(c);
    var t := e + rest;
    assert t[..|e|] == e && t[|e|..] == rest;
    if c == '&' {
      assert t[..5] == "&amp;";
    } else if c == '<' {
      assert !(|t| >= 5 && t[..5] == "&amp;") by { assert t[1] == 'l'; }
      assert t[..4] == "&lt;";
    } else if c == '>' {
      assert !(|t| >= 5 && t[..5] == "&amp;") && t[..4] != "&lt;" by { assert t[1] == 'g'; }
      assert t[..4] == "&gt;";
    } else if c == '"' {
      assert t[..5] != "&amp;" && t[..4] != "&lt;" && t[..4] != "&gt;" by { assert t[1] == 'q'; }
      assert t[..6] == "&quot;";
    } else if c == '\'' {
      assert t[..5] != "&amp;" && t[..4] != "&lt;" && t[..4] != "&gt;" && t[..6] != "&quot;" by { assert t[1] == '#'; }
      assert t[..6] == "&#039;";
    } else {
      assert t[0] == c && t[1..] == rest;
    }
  }

  /** Unescaping the escape gives the original text back. */
  lemma {:induction false} EscapedRoundTrip(s: string)
    ensures Unescape(Escaped(s)) == s
    decreases |s|
  {
    if |s| > 0 {
      UnescapeStep(s[0], Escaped(s[1..]));
      EscapedRoundTrip(s[1..]);
      assert s == [s[0]] + s[1..];
    }
  }

  lemma EscapeHtmlRoundTrip(s: string)
    ensures Unescape(EscapeHtml(s)) == s
  {
    EscapeHtmlIsMap(s);
    EscapedRoundTrip(s);
  }
}
