/** `escapeText` of app.js: the five HTML-significant characters are
    replaced by character references, everything else is copied. */
module Html {

  predicate IsSpecial(c: char)
  {
    c == '&' || c == '<' || c == '>' || c == '"' || c == '\''
  }

  function EscapeChar(c: char): string
  {
    match c
    case '&' => "&amp;"
    case '<' => "&lt;"
    case '>' => "&gt;"
    case '"' => "&quot;"
    case '\'' => "&#39;"
    case _ => [c]
  }

  /** The escaped text contains none of `<`, `>`, `"` or `'`, never gets
      shorter, and text without special characters is returned as is. */
  function EscapeText(s: string): (r: string)
    ensures |r| >= |s|
    ensures forall k :: 0 <= k < |r| ==> r[k] != '<' && r[k] != '>' && r[k] != '"' && r[k] != '\''
    ensures (forall k :: 0 <= k < |s| ==> !IsSpecial(s[k])) ==> r == s
  {
    if |s| == 0 then ""
    else
      assert forall k :: 0 <= k < |s| - 1 ==> s[1..][k] == s[k + 1];
      EscapeChar(s[0]) + EscapeText(s[1..])
  }

  predicate StartsWith(s: string, p: string)
  {
    |p| <= |s| && s[..|p|] == p
  }

  /** The character a reference at the front of `r` stands for, and the
      reference's length; an `&` that starts no reference stands for
      itself. */
  function Entity(r: string): (d: (char, nat))
    requires |r| > 0 && r[0] == '&'
    ensures 1 <= d.1 <= |r|
  {
    if StartsWith(r, "&amp;") then ('&', 5)
    else if StartsWith(r, "&lt;") then ('<', 4)
    else if StartsWith(r, "&gt;") then ('>', 4)
    else if StartsWith(r, "&quot;") then ('"', 6)
    else if StartsWith(r, "&#39;") then ('\'', 5)
    else ('&', 1)
  }

  /** Decodes the five character references `EscapeText` produces. */
  function Unescape(r: string): string
    decreases |r|
  {
    if |r| == 0 then ""
    else if r[0] != '&' then [r[0]] + Unescape(r[1..])
    else
      var d := Entity(r);
      [d.0] + Unescape(r[d.1..])
  }

  /** A recognised reference at the front decodes to its character. */
  lemma UnescapeReference(r: string, c: char, n: nat)
    requires |r| > 0 && r[0] == '&' && Entity(r) == (c, n)
    ensures Unescape(r) == [c] + Unescape(r[n..])
  {
  }

  lemma UnescapeEscapeChar(c: char, t: string)
    ensures Unescape(EscapeChar(c) + t) == [c] + Unescape(t)
  {
    var r := EscapeChar(c) + t;
    if c == '&' {
      assert Entity(r) == ('&', 5) by {
        assert r[..5] == "&amp;";
      }
      assert r[5..] == t;
      UnescapeReference(r, '&', 5);
    } else if c == '<' {
      assert Entity(r) == ('<', 4) by {
        assert r[..4] == "&lt;" && r[1] == 'l';
      }
      assert r[4..] == t;
      UnescapeReference(r, '<', 4);
    } else if c == '>' {
      assert Entity(r) == ('>', 4) by {
        assert r[..4] == "&gt;" && r[1] == 'g';
      }
      assert r[4..] == t;
      UnescapeReference(r, '>', 4);
    } else if c == '"' {
      assert Entity(r) == ('"', 6) by {
        assert r[..6] == "&quot;" && r[1] == 'q';
      }
      assert r[6..] == t;
      UnescapeReference(r, '"', 6);
    } else if c == '\'' {
      assert Entity(r) == ('\'', 5) by {
        assert r[..5] == "&#39;" && r[1] == '#';
      }
      assert r[5..] == t;
      UnescapeReference(r, '\'', 5);
    } else {
      assert r[0] == c && r[1..] == t;
    }
  }

  /** Escaping is lossless: the escaped text decodes to the original. */
  lemma {:induction false} UnescapeInvertsEscape(s: string)
    ensures Unescape(EscapeText(s)) == s
    decreases |s|
  {
    if |s| > 0 {
      UnescapeEscapeChar(s[0], EscapeText(s[1..]));
      UnescapeInvertsEscape(s[1..]);
      assert [s[0]] + s[1..] == s;
    }
  }

  /** Escaping works character by character, so it distributes over
      concatenation. */
  lemma {:induction false} EscapeTextAppend(a: string, b: string)
    ensures EscapeText(a + b) == EscapeText(a) + EscapeText(b)
    decreases |a|
  {
    if |a| > 0 {
      assert (a + b)[1..] == a[1..] + b;
      EscapeTextAppend(a[1..], b);
    } else {
      assert a + b == b;
    }
  }
}
