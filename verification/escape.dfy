/**
  The two escaping schemes of the renderer. Plain text escapes only braces;
  inline code (and inline code inside link text) also doubles backslashes.
  Each is defined as the source writes it, a chain of replace-alls, and is
  proved equal to a one-pass, per-character map, which is then inverted.
*/
module Escape {
  import opened Strings

  /** Escape of one character of plain text: a brace gains one backslash. */
  function TextChar(c: char): string {
    if c == '{' then "\\{" else if c == '}' then "\\}" else [c]
  }

  /** Escape of one character of inline code: backslash doubled, brace prefixed. */
  function CodeChar(c: char): string {
    if c == '\\' then "\\\\" else TextChar(c)
  }

  function TextEach(s: string): string {
    if |s| == 0 then "" else TextChar(s[0]) + TextEach(s[1..])
  }

  function CodeEach(s: string): string {
    if |s| == 0 then "" else CodeChar(s[0]) + CodeEach(s[1..])
  }

  /** Plain-text escaping as written: `{` then `}` replaced. */
  function EscapeText(s: string): string {
    ReplaceAll(ReplaceAll(s, "{", "\\{"), "}", "\\}")
  }

  /** Inline-code escaping as written: `\` doubled first, then `{` and `}` prefixed. */
  function EscapeCode(s: string): string {
    ReplaceAll(ReplaceAll(ReplaceAll(s, "\\", "\\\\"), "{", "\\{"), "}", "\\}")
  }

  /** Plain-text escaping touches each character once: braces gain one backslash, nothing else changes. */
  lemma {:induction false} EscapeTextPerChar(s: string)
    ensures EscapeText(s) == TextEach(s)
  {
    ReplaceCharIsSubst(s, '{', "\\{");
    ReplaceCharIsSubst(SubstChar(s, '{', "\\{"), '}', "\\}");
    TextChainPerChar(s);
  }

  lemma {:induction false} TextChainPerChar(s: string)
    ensures SubstChar(SubstChar(s, '{', "\\{"), '}', "\\}") == TextEach(s)
    decreases |s|
  {
    if |s| > 0 {
      var head := [s[0]];
      assert s == head + s[1..];
      SubstCharAppend(head, s[1..], '{', "\\{");
      SubstCharAppend(SubstChar(head, '{', "\\{"), SubstChar(s[1..], '{', "\\{"), '}', "\\}");
      TextChainPerChar(s[1..]);
    }
  }

  /**
    Inline-code escaping touches each character once: because backslashes are
    doubled before the braces are prefixed, the backslash a brace gains is not
    doubled again.
  */
  lemma {:induction false} EscapeCodePerChar(s: string)
    ensures EscapeCode(s) == CodeEach(s)
  {
    ReplaceCharIsSubst(s, '\\', "\\\\");
    var s1 := SubstChar(s, '\\', "\\\\");
    ReplaceCharIsSubst(s1, '{', "\\{");
    ReplaceCharIsSubst(SubstChar(s1, '{', "\\{"), '}', "\\}");
    CodeChainPerChar(s);
  }

  /** The chain of inline-code escaping, one replacement per character class. */
  function CodeChain(s: string): string {
    SubstChar(SubstChar(SubstChar(s, '\\', "\\\\"), '{', "\\{"), '}', "\\}")
  }

  lemma CodeChainAppend(x: string, y: string)
    ensures CodeChain(x + y) == CodeChain(x) + CodeChain(y)
  {
    SubstCharAppend(x, y, '\\', "\\\\");
    var x1, y1 := SubstChar(x, '\\', "\\\\"), SubstChar(y, '\\', "\\\\");
    SubstCharAppend(x1, y1, '{', "\\{");
    SubstCharAppend(SubstChar(x1, '{', "\\{"), SubstChar(y1, '{', "\\{"), '}', "\\}");
  }

  /** On one character the chain is the per-character escape. */
  lemma CodeChainChar(c: char)
    ensures CodeChain([c]) == CodeChar(c)
  {
  }

  lemma {:induction false} CodeChainPerChar(s: string)
    ensures CodeChain(s) == CodeEach(s)
    decreases |s|
  {
    if |s| > 0 {
      assert s == [s[0]] + s[1..];
      CodeChainAppend([s[0]], s[1..]);
      CodeChainChar(s[0]);
      CodeChainPerChar(s[1..]);
    }
  }

  /** Reads escaped plain text back: a backslash before a brace is dropped. */
  function UnescapeText(s: string): string
    decreases |s|
  {
    if |s| >= 2 && s[0] == '\\' && (s[1] == '{' || s[1] == '}') then [s[1]] + UnescapeText(s[2..])
    else if |s| > 0 then [s[0]] + UnescapeText(s[1..])
    else ""
  }

  /** Reads escaped inline code back: a backslash before `\`, `{` or `}` is dropped. */
  function UnescapeCode(s: string): string
    decreases |s|
  {
    if |s| >= 2 && s[0] == '\\' && (s[1] == '\\' || s[1] == '{' || s[1] == '}') then [s[1]] + UnescapeCode(s[2..])
    else if |s| > 0 then [s[0]] + UnescapeCode(s[1..])
    else ""
  }

  lemma TextEachHead(s: string)
    requires |s| > 0
    ensures |TextEach(s)| > 0 && TextEach(s)[0] != '{' && TextEach(s)[0] != '}'
  {
  }

  /** Escaped plain text determines the original: no two texts escape alike. */
  lemma {:induction false} TextRoundTrip(s: string)
    ensures UnescapeText(EscapeText(s)) == s
  {
    EscapeTextPerChar(s);
    TextEachRoundTrip(s);
  }

  lemma {:induction false} TextEachRoundTrip(s: string)
    ensures UnescapeText(TextEach(s)) == s
    decreases |s|
  {
    if |s| > 0 {
      var rest := TextEach(s[1..]);
      TextEachRoundTrip(s[1..]);
      if s[0] == '{' || s[0] == '}' {
        assert TextEach(s) == ['\\', s[0]] + rest;
        assert TextEach(s)[2..] == rest;
      } else {
        assert TextEach(s) == [s[0]] + rest;
        assert TextEach(s)[1..] == rest;
        if s[0] == '\\' && |rest| > 0 {
          TextEachHead(s[1..]);
        }
      }
    }
  }

  /** Escaped inline code determines the original. */
  lemma {:induction false} CodeRoundTrip(s: string)
    ensures UnescapeCode(EscapeCode(s)) == s
  {
    EscapeCodePerChar(s);
    CodeEachRoundTrip(s);
  }

  lemma {:induction false} CodeEachRoundTrip(s: string)
    ensures UnescapeCode(CodeEach(s)) == s
    decreases |s|
  {
    if |s| > 0 {
      var rest := CodeEach(s[1..]);
      CodeEachRoundTrip(s[1..]);
      if s[0] == '\\' || s[0] == '{' || s[0] == '}' {
        assert CodeEach(s) == ['\\', s[0]] + rest;
        assert CodeEach(s)[2..] == rest;
      } else {
        assert CodeEach(s) == [s[0]] + rest;
        assert CodeEach(s)[1..] == rest;
      }
    }
  }

  /** The brace escape introduces no NUL. */
  lemma {:induction false} TextEachNoNul(s: string)
    ensures NoChar(s, NUL) ==> NoChar(TextEach(s), NUL)
    decreases |s|
  {
    if |s| > 0 {
      TextEachNoNul(s[1..]);
    }
  }

  /** Neither escape introduces a NUL, so the escaped text cannot forge a sentinel. */
  lemma {:induction false} CodeEachNoNul(s: string)
    requires NoChar(s, NUL)
    ensures NoChar(CodeEach(s), NUL)
    decreases |s|
  {
    if |s| > 0 {
      CodeEachNoNul(s[1..]);
    }
  }
}
