/** Character classes and Python's `str.strip` as the rendering and
    paragraph stages use them. Strings are sequences of code points. */
module TextUtil {

  /** Python's `str.isspace` (and the regex class `\s`): the ASCII
      whitespace and separator controls plus the Unicode space separators,
      line and paragraph separators. */
  predicate IsSpace(c: char) {
    ('\t' <= c <= '\r') || ('\U{1C}' <= c <= ' ') || c == '\U{85}' || c == '\U{A0}'
    || c == '\U{1680}' || ('\U{2000}' <= c <= '\U{200A}') || c == '\U{2028}'
    || c == '\U{2029}' || c == '\U{202F}' || c == '\U{205F}' || c == '\U{3000}'
  }

  /** `str.isdigit` on the ASCII digits. */
  predicate IsDigit(c: char) {
    '0' <= c <= '9'
  }

  /** `str.isupper` on the ASCII letters. */
  predicate IsUpper(c: char) {
    'A' <= c <= 'Z'
  }

  /** The regex class `[A-Za-z]`. */
  predicate IsAsciiLetter(c: char) {
    'a' <= c <= 'z' || 'A' <= c <= 'Z'
  }

  predicate AllSpace(s: string) {
    forall k :: 0 <= k < |s| ==> IsSpace(s[k])
  }

  /** `s.lstrip()`. */
  function StripLeft(s: string): string {
    if |s| > 0 && IsSpace(s[0]) then StripLeft(s[1..]) else s
  }

  /** `s.rstrip()`. */
  function StripRight(s: string): string {
    if |s| > 0 && IsSpace(s[|s| - 1]) then StripRight(s[..|s| - 1]) else s
  }

  /** `s.strip()`. */
  function Strip(s: string): string {
    StripRight(StripLeft(s))
  }

  /** `lstrip` removes exactly the leading whitespace run. */
  lemma {:induction false} StripLeftSpec(s: string)
    ensures var t := StripLeft(s);
      |t| <= |s| && t == s[|s| - |t|..] && AllSpace(s[..|s| - |t|])
      && (|t| > 0 ==> !IsSpace(t[0]))
  {
    if |s| > 0 && IsSpace(s[0]) {
      StripLeftSpec(s[1..]);
      var t := StripLeft(s[1..]);
      assert s[1..][|s| - 1 - |t|..] == s[|s| - |t|..];
      forall k | 0 <= k < |s| - |t| ensures IsSpace(s[k]) {
        if k > 0 {
          assert s[k] == s[1..][..|s| - 1 - |t|][k - 1];
        }
      }
    }
  }

  /** `rstrip` removes exactly the trailing whitespace run. */
  lemma {:induction false} StripRightSpec(s: string)
    ensures var t := StripRight(s);
      |t| <= |s| && t == s[..|t|] && AllSpace(s[|t|..])
      && (|t| > 0 ==> !IsSpace(t[|t| - 1]))
  {
    if |s| > 0 && IsSpace(s[|s| - 1]) {
      var u := s[..|s| - 1];
      StripRightSpec(u);
      var t := StripRight(u);
      assert u[..|t|] == s[..|t|];
      forall k | |t| <= k < |s| ensures IsSpace(s[k]) {
        if k < |s| - 1 {
          assert s[k] == u[|t|..][k - |t|];
        }
      }
    }
  }

  /** A string with no whitespace at either end is its own `strip()`. */
  lemma StripFixed(s: string)
    requires |s| == 0 || (!IsSpace(s[0]) && !IsSpace(s[|s| - 1]))
    ensures Strip(s) == s
  {
  }

  /** `strip()` is idempotent. */
  lemma StripIdempotent(s: string)
    ensures Strip(Strip(s)) == Strip(s)
  {
    var l := StripLeft(s);
    StripLeftSpec(s);
    StripRightSpec(l);
    var t := StripRight(l);
    if |t| > 0 {
      assert t[0] == l[0];
    }
    StripFixed(t);
  }

  /** A non-empty `strip()` result starts and ends with a non-space and
      sits inside the original string. */
  lemma StripEnds(s: string)
    ensures var t := Strip(s);
      |t| > 0 ==> !IsSpace(t[0]) && !IsSpace(t[|t| - 1])
    ensures forall c :: c in Strip(s) ==> c in s
  {
    StripLeftSpec(s);
    var l := StripLeft(s);
    StripRightSpec(l);
    var t := StripRight(l);
    if |t| > 0 {
      assert t[0] == l[0];
    }
    assert forall c :: c in l ==> c in s;
    assert forall c :: c in t ==> c in l;
  }

  /** The whitespace-only strings are exactly those `strip()` empties. */
  lemma StripEmpty(s: string)
    ensures Strip(s) == [] <==> AllSpace(s)
  {
    StripLeftSpec(s);
    var l := StripLeft(s);
    StripRightSpec(l);
  }
}
