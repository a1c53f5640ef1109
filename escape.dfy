/** `escapeHTML`: the five HTML-significant characters become entities. */
module Escape {
  import opened Text

  predicate IsSpecial(c: char) {
    c == '&' || c == '<' || c == '>' || c == '"' || c == '\''
  }

  /** The replacement table of the source. */
  function EscapeChar(c: char): string {
    match c
    case '&' => "&amp;"
    case '<' => "&lt;"
    case '>' => "&gt;"
    case '"' => "&quot;"
    case '\'' => "&#39;"
    case _ => [c]
  }

  /** Characters that can never appear in escaped text. */
  predicate IsMarkupDelimiter(c: char) {
    c == '<' || c == '>' || c == '"' || c == '\''
  }

  /** `s.replace(/[&<>"']/g, ...)`, one character at a time, left to right. */
  function EscapeHtml(s: string): (r: string)
    ensures |r| >= |s|
    ensures forall i :: 0 <= i < |r| ==> !IsMarkupDelimiter(r[i])
    ensures (forall i :: 0 <= i < |s| ==> !IsSpecial(s[i])) ==> r == s
  {
    if s == [] then []
    else
      assert forall i :: 1 <= i < |s| ==> s[1..][i - 1] == s[i];
      EscapeChar(s[0]) + EscapeHtml(s[1..])
  }

  /** Escaping works piece by piece: the escape of a concatenation is the concatenation
      of the escapes. */
  lemma {:induction false} EscapeConcat(a: string, b: string)
    ensures EscapeHtml(a + b) == EscapeHtml(a) + EscapeHtml(b)
  {
    if a == [] {
      assert a + b == b;
    } else {
      assert (a + b)[0] == a[0] && (a + b)[1..] == a[1..] + b;
      EscapeConcat(a[1..], b);
    }
  }

  /** Escaping one character on its own gives its entry of the replacement table. */
  lemma EscapeOne(c: char)
    ensures EscapeHtml([c]) == EscapeChar(c)
  {
    assert [c][1..] == [];
  }

  /** A tag such as `<script>` in a title comes out with both angle brackets as entities. */
  lemma EscapeTag(name: string)
    ensures EscapeHtml("<" + name + ">") == "&lt;" + EscapeHtml(name) + "&gt;"
  {
    EscapeConcat("<" + name, ">");
    EscapeConcat("<", name);
    EscapeOne('<');
    EscapeOne('>');
  }

  /** Decodes the five entities that `EscapeHtml` produces; other text is copied. */
  function Unescape(t: string): string
    decreases |t|
  {
    if t == [] then []
    else if IsPrefix("&amp;", t) then "&" + Unescape(t[5..])
    else if IsPrefix("&lt;", t) then "<" + Unescape(t[4..])
    else if IsPrefix("&gt;", t) then ">" + Unescape(t[4..])
    else if IsPrefix("&quot;", t) then "\"" + Unescape(t[6..])
    else if IsPrefix("&#39;", t) then "'" + Unescape(t[5..])
    else [t[0]] + Unescape(t[1..])
  }

  /** Decoding the escape of one character followed by more text gives back the character. */
  lemma UnescapeEscapeChar(c: char, rest: string)
    ensures Unescape(EscapeChar(c) + rest) == [c] + Unescape(rest)
  {
    var e := EscapeChar(c);
    var t := e + rest;
    assert t[|e|..] == rest;
    assert t[..|e|] == e;
    if !IsSpecial(c) {
      assert t[0] == c && !IsPrefix("&amp;", t) && !IsPrefix("&lt;", t) && !IsPrefix("&gt;", t)
        && !IsPrefix("&quot;", t) && !IsPrefix("&#39;", t);
    } else if c == '&' {
      assert IsPrefix("&amp;", t);
    } else if c == '<' {
      assert t[1] == 'l' && !IsPrefix("&amp;", t) && IsPrefix("&lt;", t);
    } else if c == '>' {
      assert t[1] == 'g' && !IsPrefix("&amp;", t) && !IsPrefix("&lt;", t) && IsPrefix("&gt;", t);
    } else if c == '"' {
      assert t[1] == 'q' && !IsPrefix("&amp;", t) && !IsPrefix("&lt;", t) && !IsPrefix("&gt;", t)
        && IsPrefix("&quot;", t);
    } else {
      assert t[1] == '#' && !IsPrefix("&amp;", t) && !IsPrefix("&lt;", t) && !IsPrefix("&gt;", t)
        && !IsPrefix("&quot;", t) && IsPrefix("&#39;", t);
    }
  }

  /** Escaping loses nothing: every character, special or not, is recovered in order. */
  lemma {:induction false} UnescapeEscape(s: string)
    ensures Unescape(EscapeHtml(s)) == s
  {
    if s != [] {
      UnescapeEscape(s[1..]);
      UnescapeEscapeChar(s[0], EscapeHtml(s[1..]));
      assert s == [s[0]] + s[1..];
    }
  }
}
