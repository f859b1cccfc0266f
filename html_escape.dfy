/**
 * The HTML escaper of the activity board client (`escapeHtml` in src/static/app.js).
 *
 * Every piece of server- or user-supplied text that the client interpolates into markup
 * goes through `Escape`. It replaces each of the five markup-significant characters by an
 * entity and leaves every other character alone, one character at a time.
 * `Unescape` is the decoding a browser applies to those five entities; it is the partner
 * against which `Escape` is proved (the round trip `Unescape(Escape(s)) == s`).
 */
module HtmlEscape {

  /** The characters that the escaper's character class `[&<>"']` matches. */
  predicate IsSpecial(c: char) {
    c == '&' || c == '<' || c == '>' || c == '"' || c == '\''
  }

  /** A string that contains none of the five special characters. */
  predicate IsSafe(s: string) {
    forall i :: 0 <= i < |s| ==> !IsSpecial(s[i])
  }

  /** A character that can open a tag, close one or end a quoted attribute value. */
  predicate IsMarkupDelimiter(c: char) {
    c == '<' || c == '>' || c == '"' || c == '\''
  }

  /**
   * The replacement of one character: its entity when it is special, the character itself
   * otherwise. Only the leading `&` of an entity is special; the rest of it is safe.
   */
  function EscapeChar(c: char): (r: string)
    ensures IsSpecial(c) <==> r != [c]
    ensures |r| >= 1 && (r[0] == '&' <==> IsSpecial(c))
    ensures forall i :: 0 < i < |r| ==> !IsSpecial(r[i])
  {
    match c
    case '&' => "&amp;"
    case '<' => "&lt;"
    case '>' => "&gt;"
    case '"' => "&quot;"
    case '\'' => "&#039;"
    case _ => [c]
  }

  /**
   * `escapeHtml`: the global replace of `[&<>"']` by the entity map. The result never holds a
   * raw markup delimiter, and it is never shorter than its input.
   */
  function Escape(s: string): (r: string)
    ensures |r| >= |s|
    ensures forall i :: 0 <= i < |r| ==> !IsMarkupDelimiter(r[i])
  {
    if s == [] then [] else EscapeChar(s[0]) + Escape(s[1..])
  }

  /** `p` is a prefix of `s`. */
  predicate StartsWith(s: string, p: string) {
    |p| <= |s| && s[..|p|] == p
  }

  /**
   * Decoding of the five entities that `Escape` produces, as a browser reads them in text
   * and in quoted attribute values; any other character, a lone `&` included, stands for itself.
   */
  function Unescape(s: string): (r: string)
    ensures |r| <= |s|
    decreases |s|
  {
    if s == [] then []
    else if s[0] != '&' then [s[0]] + Unescape(s[1..])
    else if StartsWith(s, "&amp;") then "&" + Unescape(s[5..])
    else if StartsWith(s, "&lt;") then "<" + Unescape(s[4..])
    else if StartsWith(s, "&gt;") then ">" + Unescape(s[4..])
    else if StartsWith(s, "&quot;") then "\"" + Unescape(s[6..])
    else if StartsWith(s, "&#039;") then "'" + Unescape(s[6..])
    else "&" + Unescape(s[1..])
  }

  /** Escaping distributes over concatenation: it works character by character. */
  lemma {:induction false} EscapeAppend(a: string, b: string)
    ensures Escape(a + b) == Escape(a) + Escape(b)
  {
    if a == [] {
      assert a + b == b;
    } else {
      assert (a + b)[0] == a[0];
      assert (a + b)[1..] == a[1..] + b;
      EscapeAppend(a[1..], b);
    }
  }

  /** A string is returned unchanged exactly when it holds none of the five special characters. */
  lemma {:induction false} EscapeFixedIffSafe(s: string)
    ensures Escape(s) == s <==> IsSafe(s)
  {
    if s == [] {
    } else {
      EscapeFixedIffSafe(s[1..]);
      if IsSafe(s) {
        assert IsSafe(s[1..]) by {
          forall i | 0 <= i < |s[1..]| ensures !IsSpecial(s[1..][i]) {
            assert s[1..][i] == s[i + 1];
          }
        }
        assert EscapeChar(s[0]) == [s[0]];
        assert Escape(s) == [s[0]] + s[1..];
      } else if IsSpecial(s[0]) {
        assert |EscapeChar(s[0])| > 1;
        assert |Escape(s)| > |s|;
      } else {
        var i :| 0 <= i < |s| && IsSpecial(s[i]);
        assert s[1..][i - 1] == s[i];
        assert !IsSafe(s[1..]);
        assert Escape(s) == [s[0]] + Escape(s[1..]);
      }
    }
  }

  /** Decoding `&amp;` in front of any text gives `&` back. */
  lemma UnescapeAmp(t: string)
    ensures Unescape("&amp;" + t) == "&" + Unescape(t)
  {
    var s := "&amp;" + t;
    assert s[..5] == "&amp;" && s[5..] == t;
  }

  /** Decoding `&lt;` in front of any text gives `<` back. */
  lemma UnescapeLt(t: string)
    ensures Unescape("&lt;" + t) == "<" + Unescape(t)
  {
    var s := "&lt;" + t;
    assert s[1] == 'l';
    assert s[..4] == "&lt;" && s[4..] == t;
  }

  /** Decoding `&gt;` in front of any text gives `>` back. */
  lemma UnescapeGt(t: string)
    ensures Unescape("&gt;" + t) == ">" + Unescape(t)
  {
    var s := "&gt;" + t;
    assert s[1] == 'g';
    assert s[..4] == "&gt;" && s[4..] == t;
  }

  /** Decoding `&quot;` in front of any text gives `"` back. */
  lemma UnescapeQuot(t: string)
    ensures Unescape("&quot;" + t) == "\"" + Unescape(t)
  {
    var s := "&quot;" + t;
    assert s[1] == 'q';
    assert s[..6] == "&quot;" && s[6..] == t;
  }

  /** Decoding `&#039;` in front of any text gives `'` back. */
  lemma UnescapeApos(t: string)
    ensures Unescape("&#039;" + t) == "'" + Unescape(t)
  {
    var s := "&#039;" + t;
    assert s[1] == '#';
    assert s[..6] == "&#039;" && s[6..] == t;
  }

  /** Decoding one escaped character in front of any text gives that character back. */
  lemma UnescapeEscapeChar(c: char, t: string)
    ensures Unescape(EscapeChar(c) + t) == [c] + Unescape(t)
  {
    match c
    case '&' => UnescapeAmp(t);
    case '<' => UnescapeLt(t);
    case '>' => UnescapeGt(t);
    case '"' => UnescapeQuot(t);
    case '\'' => UnescapeApos(t);
    case _ =>
      var s := [c] + t;
      assert s[0] == c && s[1..] == t;
  }

  /** The browser's decoding undoes the escaper: what is rendered is displayed literally. */
  lemma {:induction false} UnescapeEscape(s: string)
    ensures Unescape(Escape(s)) == s
  {
    if s != [] {
      UnescapeEscapeChar(s[0], Escape(s[1..]));
      UnescapeEscape(s[1..]);
      assert [s[0]] + s[1..] == s;
    }
  }

  /** Distinct texts are rendered as distinct markup. */
  lemma EscapeInjective(a: string, b: string)
    requires Escape(a) == Escape(b)
    ensures a == b
  {
    UnescapeEscape(a);
    UnescapeEscape(b);
  }
}
