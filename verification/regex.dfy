/**
 * util/regex.py: escaping the characters `()[]` so that a delimiter can be
 * spliced into a regular expression.
 */
module Regex {
  import opened PyStr

  /** The characters `SanitizeRegex` escapes, in the order it escapes them. */
  const REGEX_SPECIAL_CHARS: string := "()[]"

  /** One character as it reads after escaping the characters in `specials`. */
  function EscapeChar(c: char, specials: string): string
  {
    if c in specials then ['\\', c] else [c]
  }

  /** The per-character map that escapes every character of `specials` in `s`. */
  function EscapedBy(s: string, specials: string): string
    decreases |s|
  {
    if s == [] then [] else EscapeChar(s[0], specials) + EscapedBy(s[1..], specials)
  }

  /** What `SanitizeRegex` computes: `c -> '\' + c` for `c` in `()[]`, `c -> c` otherwise. */
  function Escaped(s: string): string
  {
    EscapedBy(s, REGEX_SPECIAL_CHARS)
  }

  /**
   * Escapes each special character in turn with `replace`, as the source
   * does; the result is the per-character map `Escaped`.
   */
  method SanitizeRegex(text: string) returns (r: string)
    ensures r == Escaped(text)
  {
    EscapedByNothing(text);
    r := text;
    for i := 0 to |REGEX_SPECIAL_CHARS|
      invariant r == EscapedBy(text, REGEX_SPECIAL_CHARS[..i])
    {
      var c := REGEX_SPECIAL_CHARS[i];
      assert REGEX_SPECIAL_CHARS == ['(', ')', '[', ']'];
      EscapeOneMore(text, REGEX_SPECIAL_CHARS[..i], c);
      r := ReplaceAll(r, [c], ['\\', c]);
      assert REGEX_SPECIAL_CHARS[..i + 1] == REGEX_SPECIAL_CHARS[..i] + [c];
    }
    assert REGEX_SPECIAL_CHARS[..|REGEX_SPECIAL_CHARS|] == REGEX_SPECIAL_CHARS;
  }

  lemma {:induction false} EscapedByNothing(s: string)
    ensures EscapedBy(s, []) == s
    decreases |s|
  {
    if s != [] {
      EscapedByNothing(s[1..]);
    }
  }

  /** `replace` of a one-character needle is a per-character map. */
  function ReplaceChar(s: string, c: char, rep: string): string
    decreases |s|
  {
    if s == [] then [] else (if s[0] == c then rep else [s[0]]) + ReplaceChar(s[1..], c, rep)
  }

  lemma {:induction false} ReplaceAllOneChar(s: string, c: char, rep: string)
    ensures ReplaceAll(s, [c], rep) == ReplaceChar(s, c, rep)
    decreases |s|
  {
    if s != [] {
      ReplaceAllOneChar(s[1..], c, rep);
      assert s[..1] == [s[0]];
      assert s[1..] == s[|[c]|..];
    }
  }

  lemma {:induction false} ReplaceCharAppend(a: string, b: string, c: char, rep: string)
    ensures ReplaceChar(a + b, c, rep) == ReplaceChar(a, c, rep) + ReplaceChar(b, c, rep)
    decreases |a|
  {
    if a == [] {
      assert a + b == b;
    } else {
      ReplaceCharAppend(a[1..], b, c, rep);
      assert (a + b)[1..] == a[1..] + b;
    }
  }

  /** One more pass of the source's loop escapes one more character. */
  lemma {:induction false} EscapeOneMore(s: string, done: string, c: char)
    requires c !in done && c != '\\'
    ensures ReplaceAll(EscapedBy(s, done), [c], ['\\', c]) == EscapedBy(s, done + [c])
    decreases |s|
  {
    ReplaceAllOneChar(EscapedBy(s, done), c, ['\\', c]);
    if s != [] {
      EscapeOneMore(s[1..], done, c);
      ReplaceAllOneChar(EscapedBy(s[1..], done), c, ['\\', c]);
      ReplaceCharAppend(EscapeChar(s[0], done), EscapedBy(s[1..], done), c, ['\\', c]);
    }
  }

  /** Text with none of `()[]` comes back unchanged. */
  lemma {:induction false} EscapedPlainText(s: string)
    requires forall i :: 0 <= i < |s| ==> s[i] !in REGEX_SPECIAL_CHARS
    ensures Escaped(s) == s
    decreases |s|
  {
    if s != [] {
      EscapedPlainText(s[1..]);
    }
  }

  /** Escaping adds exactly one backslash per `(`, `)`, `[` or `]`. */
  lemma {:induction false} EscapedLength(s: string)
    ensures |Escaped(s)| == |s| + multiset(s)['('] + multiset(s)[')'] + multiset(s)['['] + multiset(s)[']']
    decreases |s|
  {
    if s != [] {
      EscapedLength(s[1..]);
      assert s == [s[0]] + s[1..];
      assert multiset(s) == multiset([s[0]]) + multiset(s[1..]);
    }
  }

  /** Reads an escaped text left to right, turning `'\' + c` back into `c` for `c` in `()[]`. */
  function Unescape(p: string): string
    decreases |p|
  {
    if p == [] then []
    else if |p| >= 2 && p[0] == '\\' && p[1] in REGEX_SPECIAL_CHARS then [p[1]] + Unescape(p[2..])
    else [p[0]] + Unescape(p[1..])
  }

  /** An escaped text never starts with a special character. */
  lemma EscapedHead(s: string)
    requires s != []
    ensures Escaped(s) != [] && Escaped(s)[0] !in REGEX_SPECIAL_CHARS
  {
  }

  /** Unescaping recovers the input, so the escaping is injective. */
  lemma {:induction false} UnescapeEscaped(s: string)
    ensures Unescape(Escaped(s)) == s
    decreases |s|
  {
    if s != [] {
      UnescapeEscaped(s[1..]);
      var tail := Escaped(s[1..]);
      if s[0] in REGEX_SPECIAL_CHARS {
        assert Escaped(s) == ['\\', s[0]] + tail;
        assert Escaped(s)[2..] == tail;
      } else if s[0] == '\\' {
        assert Escaped(s) == ['\\'] + tail;
        if s[1..] != [] {
          EscapedHead(s[1..]);
        }
        assert Escaped(s)[1..] == tail;
      } else {
        assert Escaped(s) == [s[0]] + tail;
        assert Escaped(s)[1..] == tail;
      }
    }
  }

  /** Two delimiters that escape to the same pattern are the same delimiter. */
  lemma EscapedInjective(a: string, b: string)
    requires Escaped(a) == Escaped(b)
    ensures a == b
  {
    UnescapeEscaped(a);
    UnescapeEscaped(b);
  }
}
