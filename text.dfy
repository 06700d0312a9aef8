/**
 * String rules used by the page script: `String.prototype.trim`, the
 * case-insensitive suffix tests of the two `~orig` / extension patterns,
 * and the replacement of `"` by `&quot;` in the image alt text.
 */
module Text {

  /**
   * The code points `String.prototype.trim` removes: ECMAScript WhiteSpace
   * (TAB, VT, FF, SP, NBSP, ZWNBSP and the space separators) and
   * LineTerminator (LF, CR, LS, PS).
   */
  predicate IsWhiteSpace(c: char) {
    || c == '\t' || c == '\n' || c == '\U{B}' || c == '\U{C}' || c == '\r' || c == ' '
    || c == '\U{A0}' || c == '\U{1680}' || ('\U{2000}' <= c <= '\U{200A}')
    || c == '\U{2028}' || c == '\U{2029}' || c == '\U{202F}' || c == '\U{205F}'
    || c == '\U{3000}' || c == '\U{FEFF}'
  }

  /** Number of white-space characters at the front of `s`. */
  function LeadingWhiteSpace(s: string): (n: nat)
    ensures n <= |s|
    ensures forall k :: 0 <= k < n ==> IsWhiteSpace(s[k])
    ensures n < |s| ==> !IsWhiteSpace(s[n])
  {
    if |s| > 0 && IsWhiteSpace(s[0]) then 1 + LeadingWhiteSpace(s[1..]) else 0
  }

  /** Number of white-space characters at the back of `s`. */
  function TrailingWhiteSpace(s: string): (n: nat)
    ensures n <= |s|
    ensures forall k :: |s| - n <= k < |s| ==> IsWhiteSpace(s[k])
    ensures n < |s| ==> !IsWhiteSpace(s[|s| - 1 - n])
  {
    if |s| > 0 && IsWhiteSpace(s[|s| - 1]) then 1 + TrailingWhiteSpace(s[..|s| - 1]) else 0
  }

  /** A string with no white space at either end. */
  predicate Unpadded(s: string) {
    s == [] || (!IsWhiteSpace(s[0]) && !IsWhiteSpace(s[|s| - 1]))
  }

  /**
   * `String.prototype.trim`: the longest factor of `s` that neither starts
   * nor ends with white space, obtained by dropping white space at both ends.
   */
  function Trim(s: string): (r: string)
    ensures Unpadded(r)
    ensures |r| <= |s|
    ensures var i := LeadingWhiteSpace(s);
              i + |r| <= |s| && r == s[i..i + |r|]
              && forall k :: i + |r| <= k < |s| ==> IsWhiteSpace(s[k])
  {
    var lead := LeadingWhiteSpace(s);
    if lead == |s| then
      []
    else
      var r := s[lead .. |s| - TrailingWhiteSpace(s)];
      assert r == s[lead .. lead + |r|];
      r
  }

  /** Trimming a string that has no white space at its ends leaves it as it is. */
  lemma TrimUnpadded(s: string)
    requires Unpadded(s)
    ensures Trim(s) == s
  {
    if s != [] {
      assert LeadingWhiteSpace(s) == 0;
      assert TrailingWhiteSpace(s) == 0;
    }
  }

  /** Trimming is idempotent. */
  lemma TrimIdempotent(s: string)
    ensures Trim(Trim(s)) == Trim(s)
  {
    TrimUnpadded(Trim(s));
  }

  /** ASCII lower-casing; every other character is left as it is. */
  function LowerAscii(c: char): char {
    if 'A' <= c <= 'Z' then (c as int + 32) as char else c
  }

  /**
   * `s` ends with the lower-case pattern `suffix`, ignoring the case of ASCII
   * letters in `s`: the test a `/…$/i` regular expression makes for a
   * literal ASCII pattern. (Without the `u` flag, a non-ASCII character never
   * matches an ASCII pattern letter case-insensitively.)
   */
  predicate EndsWithIgnoreCase(s: string, suffix: string) {
    |suffix| <= |s| && forall k :: 0 <= k < |suffix| ==> LowerAscii(s[|s| - |suffix| + k]) == suffix[k]
  }

  /** The alt-text escaping: every `"` becomes the entity `&quot;`. */
  function EscapeQuotes(s: string): (r: string)
    ensures '"' !in r
    ensures |r| >= |s|
  {
    if s == [] then []
    else (if s[0] == '"' then "&quot;" else [s[0]]) + EscapeQuotes(s[1..])
  }

  /** Replacing the entity `&quot;` by `"`: the reading of an attribute value. */
  function UnescapeQuotes(s: string): (r: string)
    decreases |s|
  {
    if s == [] then []
    else if |s| >= 6 && s[..6] == "&quot;" then "\"" + UnescapeQuotes(s[6..])
    else [s[0]] + UnescapeQuotes(s[1..])
  }

  /** Escaping works character by character, so it distributes over concatenation. */
  lemma {:induction false} EscapeQuotesAppend(a: string, b: string)
    ensures EscapeQuotes(a + b) == EscapeQuotes(a) + EscapeQuotes(b)
  {
    if a == [] {
      assert a + b == b;
    } else {
      assert (a + b)[0] == a[0];
      assert (a + b)[1..] == a[1..] + b;
      EscapeQuotesAppend(a[1..], b);
    }
  }

  /** A string without `"` is left unchanged, so escaping twice is escaping once. */
  lemma {:induction false} EscapeQuotesNoQuote(s: string)
    requires '"' !in s
    ensures EscapeQuotes(s) == s
  {
    if s != [] {
      assert s == [s[0]] + s[1..];
      EscapeQuotesNoQuote(s[1..]);
    }
  }

  /** Escaping loses nothing: reading the escaped text back gives the original,
      as long as the original has no `&` that could be taken for an entity. */
  lemma {:induction false} UnescapeEscapeQuotes(s: string)
    requires '&' !in s
    ensures UnescapeQuotes(EscapeQuotes(s)) == s
  {
    if s != [] {
      var rest := EscapeQuotes(s[1..]);
      assert '&' !in s[1..] by {
        forall c | c in s[1..] ensures c != '&' { assert c in s; }
      }
      UnescapeEscapeQuotes(s[1..]);
      var e := EscapeQuotes(s);
      if s[0] == '"' {
        assert e == "&quot;" + rest;
        assert e[..6] == "&quot;" && e[6..] == rest;
      } else {
        assert e == [s[0]] + rest;
        assert e[1..] == rest;
        assert s[0] != '&';
        assert |e| >= 6 ==> e[..6][0] == s[0];
      }
      assert s == [s[0]] + s[1..];
    }
  }

  /** Without the `&`-free condition the read-back fails: a title holding the
      text `&quot;` and a title holding `"` get the same alt text. */
  lemma EscapeQuotesConflates()
    ensures EscapeQuotes("\"") == EscapeQuotes("&quot;") && "\"" != "&quot;"
  {
    EscapeQuotesNoQuote("&quot;");
    assert EscapeQuotes("\"") == "&quot;" + EscapeQuotes([]);
  }
}
