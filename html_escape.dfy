/** `escapeHtml`, which XlsxReader and DocxReader each define privately with
    the same five chained `replace` calls, ampersand first. */
module HtmlEscape {
  import opened KotlinStd

  /** The escaper as written: five whole-string passes, `&` first so that the
      entities inserted by later passes are never escaped again. */
  function EscapeHtml(text: string): string
  {
    var amp := ReplaceChar(text, '&', "&amp;");
    var lt := ReplaceChar(amp, '<', "&lt;");
    var gt := ReplaceChar(lt, '>', "&gt;");
    var quot := ReplaceChar(gt, '"', "&quot;");
    ReplaceChar(quot, '\'', "&#39;")
  }

  /** The entity one character stands for. */
  function EntityFor(c: char): string
  {
    if c == '&' then "&amp;"
    else if c == '<' then "&lt;"
    else if c == '>' then "&gt;"
    else if c == '"' then "&quot;"
    else if c == '\'' then "&#39;"
    else [c]
  }

  /** A one-pass, character-by-character escaper: the reference the chained
      passes are proved equal to. */
  function EscapeEach(text: string): string
  {
    if text == [] then [] else EntityFor(text[0]) + EscapeEach(text[1..])
  }

  /** Decodes the five entities and copies everything else. */
  function Unescape(s: string): string
    decreases |s|
  {
    if s == [] then []
    else if |s| >= 5 && s[..5] == "&amp;" then ['&'] + Unescape(s[5..])
    else if |s| >= 4 && s[..4] == "&lt;" then ['<'] + Unescape(s[4..])
    else if |s| >= 4 && s[..4] == "&gt;" then ['>'] + Unescape(s[4..])
    else if |s| >= 6 && s[..6] == "&quot;" then ['"'] + Unescape(s[6..])
    else if |s| >= 5 && s[..5] == "&#39;" then ['\''] + Unescape(s[5..])
    else [s[0]] + Unescape(s[1..])
  }

  /** None of the characters that can open a tag or close an attribute value. */
  predicate NoMarkupChars(s: string)
  {
    forall i | 0 <= i < |s| :: s[i] != '<' && s[i] != '>' && s[i] != '"' && s[i] != '\''
  }

  /** None of the five characters the escaper rewrites. */
  predicate NoSpecialChars(s: string)
  {
    forall i | 0 <= i < |s| :: s[i] !in "&<>\"'"
  }

  lemma {:induction false} EscapeHtmlAppend(a: string, b: string)
    ensures EscapeHtml(a + b) == EscapeHtml(a) + EscapeHtml(b)
  {
    ReplaceCharAppend(a, b, '&', "&amp;");
    var a1, b1 := ReplaceChar(a, '&', "&amp;"), ReplaceChar(b, '&', "&amp;");
    ReplaceCharAppend(a1, b1, '<', "&lt;");
    var a2, b2 := ReplaceChar(a1, '<', "&lt;"), ReplaceChar(b1, '<', "&lt;");
    ReplaceCharAppend(a2, b2, '>', "&gt;");
    var a3, b3 := ReplaceChar(a2, '>', "&gt;"), ReplaceChar(b2, '>', "&gt;");
    ReplaceCharAppend(a3, b3, '"', "&quot;");
    var a4, b4 := ReplaceChar(a3, '"', "&quot;"), ReplaceChar(b3, '"', "&quot;");
    ReplaceCharAppend(a4, b4, '\'', "&#39;");
  }

  lemma ReplaceCharSingle(c: char, d: char, replacement: string)
    ensures ReplaceChar([c], d, replacement) == if c == d then replacement else [c]
  {
    assert [c][1..] == [];
  }

  /** Each later pass finds nothing to replace in an entity an earlier pass
      inserted. One lemma per special character; `t` and `e` stand for the
      one-character string and its entity, which keeps the prover from
      evaluating the passes on literal strings. */
  lemma EscapeHtmlAmpersand(t: string, e: string)
    requires t == ['&'] && e == "&amp;"
    ensures EscapeHtml(t) == e
  {
    assert ReplaceChar(t, '&', e) == e by { ReplaceCharSingle('&', '&', e); }
    assert ReplaceChar(e, '<', "&lt;") == e by { ReplaceCharAbsent(e, '<', "&lt;"); }
    assert ReplaceChar(e, '>', "&gt;") == e by { ReplaceCharAbsent(e, '>', "&gt;"); }
    assert ReplaceChar(e, '"', "&quot;") == e by { ReplaceCharAbsent(e, '"', "&quot;"); }
    assert ReplaceChar(e, '\'', "&#39;") == e by { ReplaceCharAbsent(e, '\'', "&#39;"); }
  }

  lemma EscapeHtmlLessThan(t: string, e: string)
    requires t == ['<'] && e == "&lt;"
    ensures EscapeHtml(t) == e
  {
    assert ReplaceChar(t, '&', "&amp;") == t by { ReplaceCharSingle('<', '&', "&amp;"); }
    assert ReplaceChar(t, '<', e) == e by { ReplaceCharSingle('<', '<', e); }
    assert ReplaceChar(e, '>', "&gt;") == e by { ReplaceCharAbsent(e, '>', "&gt;"); }
    assert ReplaceChar(e, '"', "&quot;") == e by { ReplaceCharAbsent(e, '"', "&quot;"); }
    assert ReplaceChar(e, '\'', "&#39;") == e by { ReplaceCharAbsent(e, '\'', "&#39;"); }
  }

  lemma EscapeHtmlGreaterThan(t: string, e: string)
    requires t == ['>'] && e == "&gt;"
    ensures EscapeHtml(t) == e
  {
    assert ReplaceChar(t, '&', "&amp;") == t by { ReplaceCharSingle('>', '&', "&amp;"); }
    assert ReplaceChar(t, '<', "&lt;") == t by { ReplaceCharSingle('>', '<', "&lt;"); }
    assert ReplaceChar(t, '>', e) == e by { ReplaceCharSingle('>', '>', e); }
    assert ReplaceChar(e, '"', "&quot;") == e by { ReplaceCharAbsent(e, '"', "&quot;"); }
    assert ReplaceChar(e, '\'', "&#39;") == e by { ReplaceCharAbsent(e, '\'', "&#39;"); }
  }

  lemma EscapeHtmlQuote(t: string, e: string)
    requires t == ['"'] && e == "&quot;"
    ensures EscapeHtml(t) == e
  {
    assert ReplaceChar(t, '&', "&amp;") == t by { ReplaceCharSingle('"', '&', "&amp;"); }
    assert ReplaceChar(t, '<', "&lt;") == t by { ReplaceCharSingle('"', '<', "&lt;"); }
    assert ReplaceChar(t, '>', "&gt;") == t by { ReplaceCharSingle('"', '>', "&gt;"); }
    assert ReplaceChar(t, '"', e) == e by { ReplaceCharSingle('"', '"', e); }
    assert ReplaceChar(e, '\'', "&#39;") == e by { ReplaceCharAbsent(e, '\'', "&#39;"); }
  }

  lemma EscapeHtmlApostrophe(t: string, e: string)
    requires t == ['\''] && e == "&#39;"
    ensures EscapeHtml(t) == e
  {
    assert ReplaceChar(t, '&', "&amp;") == t by { ReplaceCharSingle('\'', '&', "&amp;"); }
    assert ReplaceChar(t, '<', "&lt;") == t by { ReplaceCharSingle('\'', '<', "&lt;"); }
    assert ReplaceChar(t, '>', "&gt;") == t by { ReplaceCharSingle('\'', '>', "&gt;"); }
    assert ReplaceChar(t, '"', "&quot;") == t by { ReplaceCharSingle('\'', '"', "&quot;"); }
    assert ReplaceChar(t, '\'', e) == e by { ReplaceCharSingle('\'', '\'', e); }
  }

  lemma EscapeHtmlOfChar(c: char, t: string)
    requires t == [c]
    ensures EscapeHtml(t) == EntityFor(c)
  {
    if c == '&' {
      EscapeHtmlAmpersand(t, EntityFor(c));
    } else if c == '<' {
      EscapeHtmlLessThan(t, EntityFor(c));
    } else if c == '>' {
      EscapeHtmlGreaterThan(t, EntityFor(c));
    } else if c == '"' {
      EscapeHtmlQuote(t, EntityFor(c));
    } else if c == '\'' {
      EscapeHtmlApostrophe(t, EntityFor(c));
    } else {
      ReplaceCharAbsent(t, '&', "&amp;");
      ReplaceCharAbsent(t, '<', "&lt;");
      ReplaceCharAbsent(t, '>', "&gt;");
      ReplaceCharAbsent(t, '"', "&quot;");
      ReplaceCharAbsent(t, '\'', "&#39;");
    }
  }

  /** Escaping in five passes equals escaping each character once: the
      ampersand-first order is what makes the two agree. */
  lemma {:induction false} EscapeHtmlIsPerCharacter(text: string)
    ensures EscapeHtml(text) == EscapeEach(text)
  {
    if text != [] {
      assert text == [text[0]] + text[1..];
      EscapeHtmlAppend([text[0]], text[1..]);
      EscapeHtmlOfChar(text[0], [text[0]]);
      EscapeHtmlIsPerCharacter(text[1..]);
    }
  }

  /** The decoder's step on an entity: its first two characters single out
      the entity among the five. */
  lemma UnescapeSpecial(c: char, e: string, rest: string)
    requires c in "&<>\"'" && e == EntityFor(c)
    ensures Unescape(e + rest) == [c] + Unescape(rest)
  {
    var s := e + rest;
    assert s[..|e|] == e && s[|e|..] == rest;
    if c != '&' {
      assert |s| >= 5 ==> s[..5] != "&amp;" by { assert s[1] != 'a'; }
    }
    if c != '&' && c != '<' {
      assert s[..4] != "&lt;" by { assert s[1] != 'l'; }
    }
    if c == '"' || c == '\'' {
      assert s[..4] != "&gt;" by { assert s[1] != 'g'; }
    }
    if c == '\'' {
      assert |s| >= 6 ==> s[..6] != "&quot;" by { assert s[1] != 'q'; }
    }
  }

  lemma UnescapePlain(c: char, rest: string)
    requires c !in "&<>\"'"
    ensures Unescape([c] + rest) == [c] + Unescape(rest)
  {
    var s := [c] + rest;
    assert s[0] == c && s[1..] == rest;
  }

  /** Unescaping a character's entity followed by anything gives back the
      character: the decoder recognises each entity the escaper writes. */
  lemma UnescapeEntity(c: char, rest: string)
    ensures Unescape(EntityFor(c) + rest) == [c] + Unescape(rest)
  {
    if c in "&<>\"'" {
      UnescapeSpecial(c, EntityFor(c), rest);
    } else {
      UnescapePlain(c, rest);
    }
  }

  lemma {:induction false} UnescapeEscapeEach(text: string)
    ensures Unescape(EscapeEach(text)) == text
  {
    if text != [] {
      UnescapeEntity(text[0], EscapeEach(text[1..]));
      UnescapeEscapeEach(text[1..]);
      assert text == [text[0]] + text[1..];
    }
  }

  /** Round trip: unescaping recovers the original text. */
  lemma {:induction false} UnescapeEscapeHtml(text: string)
    ensures Unescape(EscapeHtml(text)) == text
  {
    EscapeHtmlIsPerCharacter(text);
    UnescapeEscapeEach(text);
  }

  /** Escaping is injective: different texts never escape to the same markup. */
  lemma {:induction false} EscapeHtmlInjective(a: string, b: string)
    requires EscapeHtml(a) == EscapeHtml(b)
    ensures a == b
  {
    UnescapeEscapeHtml(a);
    UnescapeEscapeHtml(b);
  }

  lemma {:induction false} EscapeEachNoMarkup(text: string)
    ensures NoMarkupChars(EscapeEach(text))
  {
    if text != [] {
      EscapeEachNoMarkup(text[1..]);
      var e := EntityFor(text[0]);
      assert NoMarkupChars(e);
      var s := EscapeEach(text);
      forall i | 0 <= i < |s|
        ensures s[i] != '<' && s[i] != '>' && s[i] != '"' && s[i] != '\''
      {
        if i >= |e| {
          assert s[i] == EscapeEach(text[1..])[i - |e|];
        }
      }
    }
  }

  /** The escaped text contains no `<`, `>`, `"` or `'`. */
  lemma {:induction false} EscapeHtmlNoMarkup(text: string)
    ensures NoMarkupChars(EscapeHtml(text))
  {
    EscapeHtmlIsPerCharacter(text);
    EscapeEachNoMarkup(text);
  }

  lemma {:induction false} EscapeEachIdentity(text: string)
    requires NoSpecialChars(text)
    ensures EscapeEach(text) == text
  {
    if text != [] {
      assert text[0] !in "&<>\"'";
      EscapeEachIdentity(text[1..]);
      assert text == [text[0]] + text[1..];
    }
  }

  /** Text without any of the five special characters is left unchanged. */
  lemma {:induction false} EscapeHtmlIdentity(text: string)
    requires NoSpecialChars(text)
    ensures EscapeHtml(text) == text
  {
    EscapeHtmlIsPerCharacter(text);
    EscapeEachIdentity(text);
  }

  /** The five special characters in a row become the five entities. */
  lemma EscapeHtmlAllSpecials(text: string)
    requires |text| == 5
    requires text[0] == '&' && text[1] == '<' && text[2] == '>' && text[3] == '"' && text[4] == '\''
    ensures EscapeHtml(text) == "&amp;&lt;&gt;&quot;&#39;"
  {
    EscapeHtmlIsPerCharacter(text);
    var t1 := text[1..];
    var t2 := t1[1..];
    var t3 := t2[1..];
    var t4 := t3[1..];
    assert t4[1..] == [];
    assert EscapeEach(t4) == "&#39;";
    assert EscapeEach(t3) == "&quot;" + EscapeEach(t4);
    assert EscapeEach(t2) == "&gt;" + EscapeEach(t3);
    assert EscapeEach(t1) == "&lt;" + EscapeEach(t2);
    assert EscapeEach(text) == "&amp;" + EscapeEach(t1);
  }
}
