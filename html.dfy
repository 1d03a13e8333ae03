/**
 * `escapeHtml`, used on frame names before they are placed in the list's markup:
 * three `replaceAll` passes, `&` first, then `<`, then `>`.
 */
module Html {

  /** `s.replaceAll(c, replacement)` for a one-character pattern. */
  function ReplaceAll(s: string, c: char, replacement: string): (r: string)
    ensures c !in replacement ==> c !in r
    ensures forall x :: x !in s && x !in replacement ==> x !in r
  {
    if s == [] then [] else (if s[0] == c then replacement else [s[0]]) + ReplaceAll(s[1..], c, replacement)
  }

  /** The function as the source writes it: the escaped text has no angle bracket left. */
  function EscapeHtml(s: string): (r: string)
    ensures '<' !in r && '>' !in r
  {
    ReplaceAll(ReplaceAll(ReplaceAll(s, '&', "&amp;"), '<', "&lt;"), '>', "&gt;")
  }

  /** The entity each character stands for after escaping. */
  function EscapeChar(c: char): string
  {
    if c == '&' then "&amp;" else if c == '<' then "&lt;" else if c == '>' then "&gt;" else [c]
  }

  /** Escaping as a character-by-character translation. */
  function EscapeEach(s: string): string
  {
    if s == [] then [] else EscapeChar(s[0]) + EscapeEach(s[1..])
  }

  /** The inverse translation: the three entities back to their characters. */
  function Unescape(t: string): (r: string)
    ensures |r| <= |t|
  {
    if t == [] then []
    else if |t| >= 4 && t[..4] == "&lt;" then "<" + Unescape(t[4..])
    else if |t| >= 4 && t[..4] == "&gt;" then ">" + Unescape(t[4..])
    else if |t| >= 5 && t[..5] == "&amp;" then "&" + Unescape(t[5..])
    else [t[0]] + Unescape(t[1..])
  }

  lemma {:induction false} ReplaceAllAppend(a: string, b: string, c: char, replacement: string)
    ensures ReplaceAll(a + b, c, replacement) == ReplaceAll(a, c, replacement) + ReplaceAll(b, c, replacement)
  {
    if a != [] {
      assert (a + b)[1..] == a[1..] + b;
      ReplaceAllAppend(a[1..], b, c, replacement);
    } else {
      assert a + b == b;
    }
  }

  lemma {:induction false} ReplaceAllAbsent(s: string, c: char, replacement: string)
    requires c !in s
    ensures ReplaceAll(s, c, replacement) == s
  {
    if s != [] {
      ReplaceAllAbsent(s[1..], c, replacement);
    }
  }

  /** `replaceAll` on a single character. */
  lemma ReplaceAllOne(d: char, c: char, replacement: string)
    ensures ReplaceAll([d], c, replacement) == if d == c then replacement else [d]
  {
    assert [d][1..] == [];
  }

  /** The three passes distribute over concatenation. */
  lemma EscapeHtmlAppend(a: string, b: string)
    ensures EscapeHtml(a + b) == EscapeHtml(a) + EscapeHtml(b)
  {
    ReplaceAllAppend(a, b, '&', "&amp;");
    var a1, b1 := ReplaceAll(a, '&', "&amp;"), ReplaceAll(b, '&', "&amp;");
    ReplaceAllAppend(a1, b1, '<', "&lt;");
    var a2, b2 := ReplaceAll(a1, '<', "&lt;"), ReplaceAll(b1, '<', "&lt;");
    ReplaceAllAppend(a2, b2, '>', "&gt;");
  }

  /** The three passes on one character give its entity. */
  lemma EscapeHtmlOne(c: char)
    ensures EscapeHtml([c]) == EscapeChar(c)
  {
    ReplaceAllOne(c, '&', "&amp;");
    var a1 := ReplaceAll([c], '&', "&amp;");
    if c == '&' {
      ReplaceAllAbsent("&amp;", '<', "&lt;");
      ReplaceAllAbsent("&amp;", '>', "&gt;");
    } else {
      ReplaceAllOne(c, '<', "&lt;");
      if c == '<' {
        ReplaceAllAbsent("&lt;", '>', "&gt;");
      } else {
        ReplaceAllOne(c, '>', "&gt;");
      }
    }
  }

  /** The three passes, `&` first, amount to translating each character once. */
  lemma {:induction false} EscapeHtmlIsPerCharacter(s: string)
    ensures EscapeHtml(s) == EscapeEach(s)
  {
    if s != [] {
      assert s == [s[0]] + s[1..];
      EscapeHtmlAppend([s[0]], s[1..]);
      EscapeHtmlOne(s[0]);
      EscapeHtmlIsPerCharacter(s[1..]);
    }
  }

  /** Reversing the three entities recovers the original text. */
  lemma {:induction false} UnescapeEscapeEach(s: string)
    ensures Unescape(EscapeEach(s)) == s
  {
    if s != [] {
      UnescapeEscapeEach(s[1..]);
      UnescapeStep(s[0], EscapeEach(s[1..]));
      assert s == [s[0]] + s[1..];
    }
  }

  /** Unescaping reads one escaped character back, whatever follows it. */
  lemma UnescapeStep(c: char, u: string)
    ensures Unescape(EscapeChar(c) + u) == [c] + Unescape(u)
  {
    if c == '<' {
      UnescapeLt(u);
    } else if c == '>' {
      UnescapeGt(u);
    } else if c == '&' {
      UnescapeAmp(u);
    } else {
      var t := [c] + u;
      assert t[0] == c && t[1..] == u;
    }
  }

  lemma UnescapeLt(u: string)
    ensures Unescape("&lt;" + u) == "<" + Unescape(u)
  {
    var t := "&lt;" + u;
    assert t[..4] == "&lt;" && t[4..] == u;
  }

  lemma UnescapeGt(u: string)
    ensures Unescape("&gt;" + u) == ">" + Unescape(u)
  {
    var t := "&gt;" + u;
    assert t[..4] == "&gt;" && t[4..] == u;
  }

  lemma UnescapeAmp(u: string)
    ensures Unescape("&amp;" + u) == "&" + Unescape(u)
  {
    var t := "&amp;" + u;
    assert t[..4] == "&amp" && t[..5] == "&amp;" && t[5..] == u;
  }

  /** The round trip through the source's escaping. */
  lemma UnescapeEscapeHtml(s: string)
    ensures Unescape(EscapeHtml(s)) == s
  {
    EscapeHtmlIsPerCharacter(s);
    UnescapeEscapeEach(s);
  }
}
