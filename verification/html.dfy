/** `escapeHtml` of frontend/src/utils/helpers.js: five global single-character
    replacements applied in turn, and the per-character entity map they amount to. */
module Html {
  import opened Text

  /** The characters the escaper rewrites. */
  predicate IsSpecial(c: char) {
    c == '&' || c == '<' || c == '>' || c == '"' || c == '\''
  }

  /** The entity each special character becomes; any other character stands for itself. */
  function EscapeChar(c: char): string {
    match c
    case '&' => "&amp;"
    case '<' => "&lt;"
    case '>' => "&gt;"
    case '"' => "&quot;"
    case '\'' => "&#039;"
    case _ => [c]
  }

  /** The reference definition: the escaper maps every character independently. */
  function Escape(s: string): string {
    if s == [] then [] else EscapeChar(s[0]) + Escape(s[1..])
  }

  /** `s.replace(/c/g, rep)`: every occurrence of `target` becomes `replacement`;
      no other character is touched or introduced. */
  function ReplaceAll(s: string, target: char, replacement: string): (r: string)
    ensures target !in s ==> r == s
    ensures target !in replacement ==> target !in r
  {
    if s == [] then []
    else if s[0] == target then replacement + ReplaceAll(s[1..], target, replacement)
    else [s[0]] + ReplaceAll(s[1..], target, replacement)
  }

  /** `escapeHtml` as written: ampersands first, then the four other
      characters. No raw `<`, `>`, `"` or `'` is left, and text without any of
      the five characters comes back unchanged. */
  function EscapeHtml(unsafe: string): (r: string)
    ensures '<' !in r && '>' !in r && '"' !in r && '\'' !in r
    ensures (forall i :: 0 <= i < |unsafe| ==> !IsSpecial(unsafe[i])) ==> r == unsafe
  {
    var s1 := ReplaceAll(unsafe, '&', "&amp;");
    var s2 := ReplaceAll(s1, '<', "&lt;");
    var s3 := ReplaceAll(s2, '>', "&gt;");
    var s4 := ReplaceAll(s3, '"', "&quot;");
    var s5 := ReplaceAll(s4, '\'', "&#039;");
    EntitiesHoldNoMarkup();
    ReplaceAllKeepsAbsent(s2, '>', "&gt;", '<');
    ReplaceAllKeepsAbsent(s3, '"', "&quot;", '<');
    ReplaceAllKeepsAbsent(s3, '"', "&quot;", '>');
    ReplaceAllKeepsAbsent(s4, '\'', "&#039;", '<');
    ReplaceAllKeepsAbsent(s4, '\'', "&#039;", '>');
    ReplaceAllKeepsAbsent(s4, '\'', "&#039;", '"');
    NoSpecialChars(unsafe);
    s5
  }

  /** The entities written by the later four steps hold no character a step targets. */
  lemma EntitiesHoldNoMarkup()
    ensures '<' !in "&gt;" && '<' !in "&quot;" && '<' !in "&#039;"
    ensures '>' !in "&lt;" && '>' !in "&quot;" && '>' !in "&#039;"
    ensures '"' !in "&lt;" && '"' !in "&gt;" && '"' !in "&#039;"
    ensures '\'' !in "&lt;" && '\'' !in "&gt;" && '\'' !in "&quot;"
  {
  }

  /** Text in which no position holds a special character contains none of the five. */
  lemma NoSpecialChars(s: string)
    ensures (forall i :: 0 <= i < |s| ==> !IsSpecial(s[i])) ==>
              '&' !in s && '<' !in s && '>' !in s && '"' !in s && '\'' !in s
  {
  }

  /** A replacement introduces no character that neither the input nor the
      replacement text holds. */
  lemma {:induction false} ReplaceAllKeepsAbsent(s: string, target: char, replacement: string, c: char)
    requires c !in s && c !in replacement
    ensures c !in ReplaceAll(s, target, replacement)
  {
    if s != [] {
      ReplaceAllKeepsAbsent(s[1..], target, replacement, c);
    }
  }

  lemma {:induction false} ReplaceAllAppend(a: string, b: string, target: char, replacement: string)
    ensures ReplaceAll(a + b, target, replacement)
         == ReplaceAll(a, target, replacement) + ReplaceAll(b, target, replacement)
  {
    if a == [] {
      assert a + b == b;
    } else {
      assert (a + b)[1..] == a[1..] + b;
      ReplaceAllAppend(a[1..], b, target, replacement);
    }
  }

  /** Escaping distributes over concatenation. */
  lemma {:induction false} EscapeAppend(a: string, b: string)
    ensures Escape(a + b) == Escape(a) + Escape(b)
  {
    if a == [] {
      assert a + b == b;
    } else {
      assert (a + b)[1..] == a[1..] + b;
      EscapeAppend(a[1..], b);
    }
  }

  /** `escapeHtml` distributes over concatenation, because each of its five
      replacements does. */
  lemma EscapeHtmlAppend(a: string, b: string)
    ensures EscapeHtml(a + b) == EscapeHtml(a) + EscapeHtml(b)
  {
    ReplaceAllAppend(a, b, '&', "&amp;");
    var a1 := ReplaceAll(a, '&', "&amp;");
    var b1 := ReplaceAll(b, '&', "&amp;");
    ReplaceAllAppend(a1, b1, '<', "&lt;");
    var a2 := ReplaceAll(a1, '<', "&lt;");
    var b2 := ReplaceAll(b1, '<', "&lt;");
    ReplaceAllAppend(a2, b2, '>', "&gt;");
    var a3 := ReplaceAll(a2, '>', "&gt;");
    var b3 := ReplaceAll(b2, '>', "&gt;");
    ReplaceAllAppend(a3, b3, '"', "&quot;");
    var a4 := ReplaceAll(a3, '"', "&quot;");
    var b4 := ReplaceAll(b3, '"', "&quot;");
    ReplaceAllAppend(a4, b4, '\'', "&#039;");
  }

  /** On one character the chain yields that character's entity: the entity
      written by one step holds no character a later step targets. */
  lemma EscapeHtmlChar(c: char)
    ensures EscapeHtml([c]) == EscapeChar(c)
  {
    if c == '&' {
      EscapeHtmlAmp();
    } else if c == '<' {
      EscapeHtmlLt();
    } else if c == '>' {
      EscapeHtmlGt();
    } else if c == '"' {
      EscapeHtmlQuot();
    } else if c == '\'' {
      EscapeHtmlApos();
    }
  }

  /** A one-character string that is the target becomes the replacement. */
  lemma ReplaceAllHit(c: char, replacement: string)
    ensures ReplaceAll([c], c, replacement) == replacement
  {
    assert [c][1..] == [];
  }

  /** The entity for `&` passes the later four steps untouched. */
  lemma EscapeHtmlAmp()
    ensures EscapeHtml("&") == "&amp;"
  {
    ReplaceAllHit('&', "&amp;");
    var e := "&amp;";
    assert '<' !in e && '>' !in e && '"' !in e && '\'' !in e;
  }

  lemma EscapeHtmlLt()
    ensures EscapeHtml("<") == "&lt;"
  {
    ReplaceAllHit('<', "&lt;");
    var e := "&lt;";
    assert '&' !in "<";
    assert '>' !in e && '"' !in e && '\'' !in e;
  }

  lemma EscapeHtmlGt()
    ensures EscapeHtml(">") == "&gt;"
  {
    ReplaceAllHit('>', "&gt;");
    var e := "&gt;";
    assert '&' !in ">" && '<' !in ">";
    assert '"' !in e && '\'' !in e;
  }

  lemma EscapeHtmlQuot()
    ensures EscapeHtml("\"") == "&quot;"
  {
    ReplaceAllHit('"', "&quot;");
    var e := "&quot;";
    assert '&' !in "\"" && '<' !in "\"" && '>' !in "\"";
    assert '\'' !in e;
  }

  lemma EscapeHtmlApos()
    ensures EscapeHtml("'") == "&#039;"
  {
    ReplaceAllHit('\'', "&#039;");
    assert '&' !in "'" && '<' !in "'" && '>' !in "'" && '"' !in "'";
  }

  /** The chain of five replacements is the per-character entity map: `&` is
      handled first, so no entity is escaped again. */
  lemma {:induction false} EscapeHtmlIsPerCharacter(s: string)
    ensures EscapeHtml(s) == Escape(s)
  {
    if s != [] {
      assert s == [s[0]] + s[1..];
      EscapeHtmlAppend([s[0]], s[1..]);
      EscapeHtmlChar(s[0]);
      EscapeHtmlIsPerCharacter(s[1..]);
    }
  }

  /** Escaping is not idempotent: an ampersand that is already part of an entity
      is escaped once more. */
  lemma EscapeHtmlNotIdempotent()
    ensures EscapeHtml("&amp;") == "&amp;amp;"
  {
    var tail := "amp;";
    assert '&' !in tail && '<' !in tail && '>' !in tail && '"' !in tail && '\'' !in tail;
    var s := ['&'] + tail;
    assert s == "&amp;" && s[1..] == tail;
    assert ReplaceAll(s, '&', "&amp;") == "&amp;" + tail;
    var s1 := "&amp;" + tail;
    assert '<' !in s1 && '>' !in s1 && '"' !in s1 && '\'' !in s1;
    assert s1 == "&amp;amp;";
  }

  /** Escaping twice differs from escaping once. */
  lemma EscapeHtmlTwiceDiffers()
    ensures EscapeHtml(EscapeHtml("&")) != EscapeHtml("&")
  {
    EscapeHtmlAmp();
    EscapeHtmlNotIdempotent();
  }

  /** No raw `<`, `>`, `"` or `'` survives the per-character map. */
  lemma {:induction false} EscapeNoMarkup(s: string)
    ensures '<' !in Escape(s) && '>' !in Escape(s) && '"' !in Escape(s) && '\'' !in Escape(s)
  {
    if s != [] {
      EscapeNoMarkup(s[1..]);
      var e := EscapeChar(s[0]);
      assert '<' !in e && '>' !in e && '"' !in e && '\'' !in e;
    }
  }

  /** The output of `escapeHtml` holds no raw `<`, `>`, `"` or `'`, whatever the input. */
  lemma EscapeHtmlNoMarkup(s: string)
    ensures '<' !in EscapeHtml(s) && '>' !in EscapeHtml(s)
    ensures '"' !in EscapeHtml(s) && '\'' !in EscapeHtml(s)
  {
    EscapeHtmlIsPerCharacter(s);
    EscapeNoMarkup(s);
  }

  /** The escaped text never drops below the input's length, and it equals the
      input exactly when the input has no special character; otherwise it is
      strictly longer. */
  lemma {:induction false} EscapeUnchangedIff(s: string)
    ensures |Escape(s)| >= |s|
    ensures (forall i :: 0 <= i < |s| ==> !IsSpecial(s[i])) <==> Escape(s) == s
    ensures (exists i :: 0 <= i < |s| && IsSpecial(s[i])) ==> |Escape(s)| > |s|
  {
    if s != [] {
      EscapeUnchangedIff(s[1..]);
      assert forall i :: 1 <= i < |s| ==> s[i] == s[1..][i - 1];
      if !IsSpecial(s[0]) {
        assert EscapeChar(s[0]) == [s[0]];
        if Escape(s) == s {
          assert Escape(s[1..]) == s[1..];
        }
      } else {
        assert |EscapeChar(s[0])| > 1;
      }
    }
  }

  /** The same facts for `escapeHtml` itself. */
  lemma EscapeHtmlUnchangedIff(s: string)
    ensures (forall i :: 0 <= i < |s| ==> !IsSpecial(s[i])) <==> EscapeHtml(s) == s
    ensures (exists i :: 0 <= i < |s| && IsSpecial(s[i])) ==> |EscapeHtml(s)| > |s|
  {
    EscapeHtmlIsPerCharacter(s);
    EscapeUnchangedIff(s);
  }

  /** Decodes the five entities the escaper produces; the escaper's left inverse. */
  function Unescape(s: string): string {
    if s == [] then []
    else if s[0] != '&' then [s[0]] + Unescape(s[1..])
    else if StartsWith(s, "&amp;") then ['&'] + Unescape(s[5..])
    else if StartsWith(s, "&lt;") then ['<'] + Unescape(s[4..])
    else if StartsWith(s, "&gt;") then ['>'] + Unescape(s[4..])
    else if StartsWith(s, "&quot;") then ['"'] + Unescape(s[6..])
    else if StartsWith(s, "&#039;") then ['\''] + Unescape(s[6..])
    else [s[0]] + Unescape(s[1..])
  }

  /** Splitting `e + rest` back into its two parts at `|e|`. */
  lemma SplitAt(e: string, rest: string)
    ensures (e + rest)[..|e|] == e && (e + rest)[|e|..] == rest
  {
  }

  lemma UnescapeAmp(rest: string)
    ensures Unescape("&amp;" + rest) == ['&'] + Unescape(rest)
  {
    SplitAt("&amp;", rest);
  }

  lemma UnescapeLt(rest: string)
    ensures Unescape("&lt;" + rest) == ['<'] + Unescape(rest)
  {
    SplitAt("&lt;", rest);
    assert ("&lt;" + rest)[1] == 'l';
  }

  lemma UnescapeGt(rest: string)
    ensures Unescape("&gt;" + rest) == ['>'] + Unescape(rest)
  {
    SplitAt("&gt;", rest);
    assert ("&gt;" + rest)[1] == 'g';
  }

  lemma UnescapeQuot(rest: string)
    ensures Unescape("&quot;" + rest) == ['"'] + Unescape(rest)
  {
    SplitAt("&quot;", rest);
    assert ("&quot;" + rest)[1] == 'q';
  }

  lemma UnescapeApos(rest: string)
    ensures Unescape("&#039;" + rest) == ['\''] + Unescape(rest)
  {
    SplitAt("&#039;", rest);
    assert ("&#039;" + rest)[1] == '#';
  }

  /** Unescaping consumes exactly the entity (or plain character) in front. */
  lemma UnescapeStep(c: char, rest: string)
    ensures Unescape(EscapeChar(c) + rest) == [c] + Unescape(rest)
  {
    match c
    case '&' => UnescapeAmp(rest);
    case '<' => UnescapeLt(rest);
    case '>' => UnescapeGt(rest);
    case '"' => UnescapeQuot(rest);
    case '\'' => UnescapeApos(rest);
    case _ => SplitAt([c], rest);
  }

  /** Unescaping undoes escaping. */
  lemma {:induction false} UnescapeEscape(s: string)
    ensures Unescape(Escape(s)) == s
  {
    if s != [] {
      UnescapeStep(s[0], Escape(s[1..]));
      UnescapeEscape(s[1..]);
    }
  }

  /** Distinct strings escape to distinct strings, so escaping loses nothing. */
  lemma EscapeHtmlInjective(a: string, b: string)
    requires EscapeHtml(a) == EscapeHtml(b)
    ensures a == b
  {
    EscapeHtmlIsPerCharacter(a);
    EscapeHtmlIsPerCharacter(b);
    UnescapeEscape(a);
    UnescapeEscape(b);
  }
}
