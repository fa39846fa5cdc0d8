/** Markdown escaping of recognised text (`ocr_escape_special_markdown_char`). */
module MarkdownUtils {

  /** The characters with a markdown meaning that recognised text escapes. */
  predicate IsMdSpecial(c: char) {
    c == '*' || c == '`' || c == '~' || c == '$'
  }

  /** `s.replace(c, repl)` for a single character `c`. */
  function ReplaceChar(s: string, c: char, repl: string): string {
    if |s| == 0 then "" else (if s[0] == c then repl else [s[0]]) + ReplaceChar(s[1..], c, repl)
  }

  /** `ocr_escape_special_markdown_char`: four `str.replace` passes, one per
      special character, in the order `*`, backquote, `~`, `$`. */
  function EscapeSpecial(s: string): string {
    ReplaceChar(ReplaceChar(ReplaceChar(ReplaceChar(s, '*', "\\*"), '`', "\\`"), '~', "\\~"), '$', "\\$")
  }

  /** The escaping as one left-to-right pass: a backslash goes in front of
      every special character. */
  function EscapeEach(s: string): string {
    if |s| == 0 then "" else (if IsMdSpecial(s[0]) then ['\\', s[0]] else [s[0]]) + EscapeEach(s[1..])
  }

  lemma {:induction false} ReplaceConcat(a: string, b: string, c: char, repl: string)
    ensures ReplaceChar(a + b, c, repl) == ReplaceChar(a, c, repl) + ReplaceChar(b, c, repl)
  {
    if |a| == 0 {
      assert a + b == b;
    } else {
      assert (a + b)[0] == a[0] && (a + b)[1..] == a[1..] + b;
      ReplaceConcat(a[1..], b, c, repl);
    }
  }

  lemma ReplaceAbsent(s: string, c: char, repl: string)
    requires c !in s
    ensures ReplaceChar(s, c, repl) == s
  {
    if |s| > 0 {
      assert c !in s[1..];
      ReplaceAbsent(s[1..], c, repl);
    }
  }

  lemma ReplaceOne(x: char, c: char, repl: string)
    ensures ReplaceChar([x], c, repl) == if x == c then repl else [x]
  {
    assert [x][1..] == [];
  }

  lemma EscapeSpecialConcat(a: string, b: string)
    ensures EscapeSpecial(a + b) == EscapeSpecial(a) + EscapeSpecial(b)
  {
    var a1, b1 := ReplaceChar(a, '*', "\\*"), ReplaceChar(b, '*', "\\*");
    ReplaceConcat(a, b, '*', "\\*");
    var a2, b2 := ReplaceChar(a1, '`', "\\`"), ReplaceChar(b1, '`', "\\`");
    ReplaceConcat(a1, b1, '`', "\\`");
    var a3, b3 := ReplaceChar(a2, '~', "\\~"), ReplaceChar(b2, '~', "\\~");
    ReplaceConcat(a2, b2, '~', "\\~");
    ReplaceConcat(a3, b3, '$', "\\$");
  }

  /** Later passes leave alone what an earlier pass inserted. */
  lemma EscapeSpecialOne(x: char)
    ensures EscapeSpecial([x]) == EscapeEach([x])
  {
    assert [x][1..] == [];
    ReplaceOne(x, '*', "\\*");
    var s1 := ReplaceChar([x], '*', "\\*");
    if x == '*' {
      ReplaceAbsent(s1, '`', "\\`");
      ReplaceAbsent(s1, '~', "\\~");
      ReplaceAbsent(s1, '$', "\\$");
    } else {
      ReplaceOne(x, '`', "\\`");
      var s2 := ReplaceChar([x], '`', "\\`");
      if x == '`' {
        ReplaceAbsent(s2, '~', "\\~");
        ReplaceAbsent(s2, '$', "\\$");
      } else {
        ReplaceOne(x, '~', "\\~");
        var s3 := ReplaceChar([x], '~', "\\~");
        if x == '~' {
          ReplaceAbsent(s3, '$', "\\$");
        } else {
          ReplaceOne(x, '$', "\\$");
        }
      }
    }
  }

  /** The four passes do what one pass does. */
  lemma {:induction false} EscapePassesAgree(s: string)
    ensures EscapeSpecial(s) == EscapeEach(s)
  {
    if |s| > 0 {
      assert s == [s[0]] + s[1..];
      EscapeSpecialConcat([s[0]], s[1..]);
      EscapeSpecialOne(s[0]);
      EscapePassesAgree(s[1..]);
    }
  }

  function SpecialCount(s: string): nat {
    if |s| == 0 then 0 else (if IsMdSpecial(s[0]) then 1 else 0) + SpecialCount(s[1..])
  }

  lemma {:induction false} EscapeEachLength(s: string)
    ensures |EscapeEach(s)| == |s| + SpecialCount(s)
  {
    if |s| > 0 {
      EscapeEachLength(s[1..]);
    }
  }

  /** Escaping lengthens the text by one backslash per special character. */
  lemma EscapeLength(s: string)
    ensures |EscapeSpecial(s)| == |s| + SpecialCount(s)
  {
    EscapePassesAgree(s);
    EscapeEachLength(s);
  }

  lemma {:induction false} EscapeEachPlain(s: string)
    requires forall k :: 0 <= k < |s| ==> !IsMdSpecial(s[k])
    ensures EscapeEach(s) == s
  {
    if |s| > 0 {
      EscapeEachPlain(s[1..]);
      assert [s[0]] + s[1..] == s;
    }
  }

  /** Text without special characters is left as it is. */
  lemma EscapePlain(s: string)
    requires forall k :: 0 <= k < |s| ==> !IsMdSpecial(s[k])
    ensures EscapeSpecial(s) == s
  {
    EscapePassesAgree(s);
    EscapeEachPlain(s);
  }

  lemma {:induction false} EscapeEachMarked(s: string)
    ensures var t := EscapeEach(s);
      |t| > 0 ==> !IsMdSpecial(t[0])
    ensures var t := EscapeEach(s);
      forall k :: 0 < k < |t| && IsMdSpecial(t[k]) ==> t[k - 1] == '\\'
  {
    if |s| > 0 {
      EscapeEachMarked(s[1..]);
      var h := if IsMdSpecial(s[0]) then ['\\', s[0]] else [s[0]];
      var rest := EscapeEach(s[1..]);
      var t := h + rest;
      forall k | 0 < k < |t| && IsMdSpecial(t[k]) ensures t[k - 1] == '\\' {
        if k > |h| {
          assert t[k] == rest[k - |h|] && t[k - 1] == rest[k - 1 - |h|];
        }
      }
    }
  }

  /** Every special character of the output directly follows a backslash. */
  lemma EscapeMarked(s: string)
    ensures var t := EscapeSpecial(s);
      forall k :: 0 <= k < |t| && IsMdSpecial(t[k]) ==> k > 0 && t[k - 1] == '\\'
  {
    EscapePassesAgree(s);
    EscapeEachMarked(s);
  }

  /** Drops the backslash in front of each special character. */
  function Unescape(t: string): string {
    if |t| == 0 then ""
    else if |t| >= 2 && t[0] == '\\' && IsMdSpecial(t[1]) then [t[1]] + Unescape(t[2..])
    else [t[0]] + Unescape(t[1..])
  }

  lemma {:induction false} UnescapeEach(s: string)
    ensures Unescape(EscapeEach(s)) == s
  {
    if |s| > 0 {
      UnescapeEach(s[1..]);
      var rest := EscapeEach(s[1..]);
      EscapeEachMarked(s[1..]);
      if IsMdSpecial(s[0]) {
        assert (['\\', s[0]] + rest)[2..] == rest;
      } else {
        assert ([s[0]] + rest)[1..] == rest;
      }
      assert [s[0]] + s[1..] == s;
    }
  }

  /** Round trip: removing the inserted backslashes recovers the text. */
  lemma UnescapeEscape(s: string)
    ensures Unescape(EscapeSpecial(s)) == s
  {
    EscapePassesAgree(s);
    UnescapeEach(s);
  }
}
