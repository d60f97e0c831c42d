/**
 * The part of Python's `re` the preprocessor relies on: the literal text a
 * pattern built from escaped delimiters stands for, and `re.findall` of the
 * pattern `prefix(.*?)postfix` once both delimiters are literal.
 */
module LiteralRe {
  import opened Wrappers
  import opened PyStr
  import opened Regex

  /** Regular-expression metacharacters that `SanitizeRegex` leaves unescaped. */
  const OTHER_METACHARS: string := "\\.^$*+?{}|"

  /** A delimiter that holds no metacharacter apart from `()[]`. */
  predicate Plain(s: string)
  {
    forall i :: 0 <= i < |s| ==> s[i] !in OTHER_METACHARS
  }

  function Prepend(c: char, rest: Option<string>): Option<string>
  {
    if rest.Some? then Some([c] + rest.value) else None
  }

  /**
   * The literal text matched by a pattern made of ordinary characters and the
   * escapes `\(`, `\)`, `\[`, `\]`; None for any other pattern, whose meaning
   * is general regular-expression syntax.
   */
  function CompileLiteral(pattern: string): (r: Option<string>)
    ensures r.Some? ==> Plain(r.value) && Escaped(r.value) == pattern
    decreases |pattern|
  {
    if pattern == [] then Some([])
    else if pattern[0] == '\\' then
      if |pattern| >= 2 && pattern[1] in REGEX_SPECIAL_CHARS then
        var rest := CompileLiteral(pattern[2..]);
        assert rest.Some? ==> pattern == ['\\', pattern[1]] + pattern[2..];
        Prepend(pattern[1], rest)
      else None
    else if pattern[0] in OTHER_METACHARS || pattern[0] in REGEX_SPECIAL_CHARS then None
    else
      var rest := CompileLiteral(pattern[1..]);
      assert rest.Some? ==> pattern == [pattern[0]] + pattern[1..];
      Prepend(pattern[0], rest)
  }

  /**
   * Metacharacters other than `()[]` come out of the escaping unchanged, so a
   * delimiter made of them is not read as literal text.
   */
  lemma MetacharsPassThrough(s: string)
    requires forall i :: 0 <= i < |s| ==> s[i] in OTHER_METACHARS
    ensures Escaped(s) == s
    ensures s != [] ==> CompileLiteral(Escaped(s)) == None
  {
    forall i | 0 <= i < |s| ensures s[i] !in REGEX_SPECIAL_CHARS {
      assert s[i] in OTHER_METACHARS;
    }
    EscapedPlainText(s);
    SanitizedIsLiteral(s);
    if s != [] {
      assert s[0] in OTHER_METACHARS;
      assert !Plain(s);
    }
  }

  /**
   * A sanitized delimiter is read literally exactly when it is plain: any other
   * metacharacter (`.`, `*`, `?`, `\` ...) passes through the escaping unchanged
   * and keeps its regular-expression meaning.
   */
  lemma {:induction false} SanitizedIsLiteral(s: string)
    ensures CompileLiteral(Escaped(s)) == if Plain(s) then Some(s) else None
    decreases |s|
  {
    if s != [] {
      SanitizedIsLiteral(s[1..]);
      var tail := Escaped(s[1..]);
      assert Plain(s) <==> s[0] !in OTHER_METACHARS && Plain(s[1..]) by {
        if s[0] !in OTHER_METACHARS && Plain(s[1..]) {
          forall i | 0 <= i < |s| ensures s[i] !in OTHER_METACHARS {
            if i > 0 { assert s[i] == s[1..][i - 1]; }
          }
        }
        if Plain(s) {
          forall i | 0 <= i < |s[1..]| ensures s[1..][i] !in OTHER_METACHARS {
            assert s[1..][i] == s[i + 1];
          }
        }
      }
      if s[0] in REGEX_SPECIAL_CHARS {
        assert Escaped(s) == ['\\', s[0]] + tail;
        assert Escaped(s)[2..] == tail;
        assert s[0] !in OTHER_METACHARS;
        assert CompileLiteral(Escaped(s)) == Prepend(s[0], CompileLiteral(tail));
        assert s == [s[0]] + s[1..];
      } else if s[0] == '\\' {
        assert Escaped(s) == ['\\'] + tail;
        if s[1..] != [] {
          EscapedHead(s[1..]);
        }
      } else {
        assert Escaped(s) == [s[0]] + tail;
        assert Escaped(s)[1..] == tail;
        if s[0] !in OTHER_METACHARS {
          assert CompileLiteral(Escaped(s)) == Prepend(s[0], CompileLiteral(tail));
          assert s == [s[0]] + s[1..];
        }
      }
    }
  }

  /** The text contains no line break (Python's `.` does not match `\n`). */
  predicate SingleLine(s: string)
  {
    '\n' !in s
  }

  /**
   * Where the lazy group `(.*?)` that starts at `from` ends: the first index
   * at which `postfix` follows a run of non-newline characters.
   */
  function LazyBodyEnd(text: string, from: nat, postfix: string): (r: Option<nat>)
    requires from <= |text|
    ensures r.Some? ==> from <= r.value && OccursAt(text, r.value, postfix)
    ensures r.Some? ==> SingleLine(text[from..r.value])
    ensures r.Some? ==> forall j :: from <= j < r.value ==> !OccursAt(text, j, postfix)
    ensures r.None? ==> forall j :: from <= j <= |text| && SingleLine(text[from..j]) ==> !OccursAt(text, j, postfix)
    decreases |text| - from
  {
    if OccursAt(text, from, postfix) then Some(from)
    else if from < |text| && text[from] != '\n' then
      var r := LazyBodyEnd(text, from + 1, postfix);
      assert forall j :: from + 1 <= j <= |text| ==> text[from..j] == [text[from]] + text[from + 1..j];
      r
    else
      assert forall j :: from < j <= |text| ==> text[from..j][0] == text[from];
      None
  }

  /**
   * `re.findall(prefix + '(.*?)' + postfix, text[pos:])` for literal
   * delimiters: the leftmost match first, matches do not overlap, and the
   * scan resumes after each match's postfix.
   */
  function FindAllFrom(text: string, prefix: string, postfix: string, pos: nat): seq<string>
    requires |prefix| + |postfix| > 0
    decreases |text| + 1 - pos
  {
    if pos > |text| then []
    else if OccursAt(text, pos, prefix) && LazyBodyEnd(text, pos + |prefix|, postfix).Some? then
      var j := LazyBodyEnd(text, pos + |prefix|, postfix).value;
      [text[pos + |prefix|..j]] + FindAllFrom(text, prefix, postfix, j + |postfix|)
    else FindAllFrom(text, prefix, postfix, pos + 1)
  }

  /** Every body the scan returns is single-line and sits between the delimiters in the text. */
  lemma {:induction false} FindAllFromSound(text: string, prefix: string, postfix: string, pos: nat)
    requires |prefix| + |postfix| > 0
    ensures var bodies := FindAllFrom(text, prefix, postfix, pos);
            forall i :: 0 <= i < |bodies| ==> SingleLine(bodies[i]) && Contains(text, prefix + bodies[i] + postfix)
    decreases |text| + 1 - pos
  {
    if pos <= |text| {
      if MatchAt(text, prefix, postfix, pos) {
        var j := LazyBodyEnd(text, pos + |prefix|, postfix).value;
        var body := text[pos + |prefix|..j];
        FindAllFromSound(text, prefix, postfix, j + |postfix|);
        assert text[pos..j + |postfix|] == prefix + body + postfix by {
          assert text[pos..j + |postfix|] == text[pos..pos + |prefix|] + text[pos + |prefix|..j] + text[j..j + |postfix|];
        }
        assert OccursAt(text, pos, prefix + body + postfix);
        FindAllFromHit(text, prefix, postfix, pos);
      } else {
        FindAllFromSkip(text, prefix, postfix, pos);
        FindAllFromSound(text, prefix, postfix, pos + 1);
      }
    }
  }

  /** A match of `prefix(.*?)postfix` starts at `k`. */
  predicate MatchAt(text: string, prefix: string, postfix: string, k: nat)
  {
    OccursAt(text, k, prefix) && LazyBodyEnd(text, k + |prefix|, postfix).Some?
  }

  /** No match at `pos`: the scan moves on by one character. */
  lemma FindAllFromSkip(text: string, prefix: string, postfix: string, pos: nat)
    requires |prefix| + |postfix| > 0 && pos <= |text| && !MatchAt(text, prefix, postfix, pos)
    ensures FindAllFrom(text, prefix, postfix, pos) == FindAllFrom(text, prefix, postfix, pos + 1)
  {
  }

  /** A match at `pos`: its body comes first and the scan resumes after its postfix. */
  lemma FindAllFromHit(text: string, prefix: string, postfix: string, pos: nat)
    requires |prefix| + |postfix| > 0 && MatchAt(text, prefix, postfix, pos)
    ensures var e := LazyBodyEnd(text, pos + |prefix|, postfix).value;
            FindAllFrom(text, prefix, postfix, pos) ==
              [text[pos + |prefix|..e]] + FindAllFrom(text, prefix, postfix, e + |postfix|)
  {
  }

  /** The scan from `pos` finds nothing exactly when no match starts at or after `pos`. */
  lemma {:induction false} FindAllFromEmpty(text: string, prefix: string, postfix: string, pos: nat)
    requires |prefix| + |postfix| > 0
    ensures FindAllFrom(text, prefix, postfix, pos) == [] <==>
              forall k :: pos <= k <= |text| ==> !MatchAt(text, prefix, postfix, k)
    decreases |text| + 1 - pos
  {
    if pos <= |text| {
      if MatchAt(text, prefix, postfix, pos) {
        FindAllFromHit(text, prefix, postfix, pos);
      } else {
        FindAllFromSkip(text, prefix, postfix, pos);
        FindAllFromEmpty(text, prefix, postfix, pos + 1);
      }
    }
  }

  /** With no match from `pos` up to `k`, the scan from `pos` is the scan from `k`. */
  lemma {:induction false} FindAllFromSkipTo(text: string, prefix: string, postfix: string, pos: nat, k: nat)
    requires |prefix| + |postfix| > 0 && pos <= k <= |text|
    requires forall k' :: pos <= k' < k ==> !MatchAt(text, prefix, postfix, k')
    ensures FindAllFrom(text, prefix, postfix, pos) == FindAllFrom(text, prefix, postfix, k)
    decreases k - pos
  {
    if pos < k {
      FindAllFromSkip(text, prefix, postfix, pos);
      FindAllFromSkipTo(text, prefix, postfix, pos + 1, k);
    }
  }

  /**
   * The scan from `pos` starts with the body of the leftmost match at or after
   * `pos` and resumes just after that match's postfix, so matches never overlap.
   */
  lemma FindAllFromLeftmost(text: string, prefix: string, postfix: string, pos: nat, k: nat)
    requires |prefix| + |postfix| > 0 && pos <= k && MatchAt(text, prefix, postfix, k)
    requires forall k' :: pos <= k' < k ==> !MatchAt(text, prefix, postfix, k')
    ensures var e := LazyBodyEnd(text, k + |prefix|, postfix).value;
            FindAllFrom(text, prefix, postfix, pos) ==
              [text[k + |prefix|..e]] + FindAllFrom(text, prefix, postfix, e + |postfix|)
  {
    FindAllFromSkipTo(text, prefix, postfix, pos, k);
    FindAllFromHit(text, prefix, postfix, k);
  }

  /** `re.findall(prefix + '(.*?)' + postfix, text)` for literal delimiters. */
  function FindAll(text: string, prefix: string, postfix: string): (bodies: seq<string>)
    requires |prefix| + |postfix| > 0
  {
    FindAllFrom(text, prefix, postfix, 0)
  }

  /**
   * A text that is one directive whose postfix first occurs right after its
   * single-line body yields exactly that body.
   */
  lemma FindAllSole(prefix: string, body: string, postfix: string)
    requires |prefix| + |postfix| > 0 && SingleLine(body)
    requires forall j :: |prefix| <= j < |prefix| + |body| ==> !OccursAt(prefix + body + postfix, j, postfix)
    ensures FindAll(prefix + body + postfix, prefix, postfix) == [body]
  {
    var text := prefix + body + postfix;
    var bodyEnd := |prefix| + |body|;
    assert text[..|prefix|] == prefix;
    assert OccursAt(text, 0, prefix);
    assert text[|prefix|..bodyEnd] == body;
    assert text[bodyEnd..bodyEnd + |postfix|] == postfix;
    assert OccursAt(text, bodyEnd, postfix);
    var r := LazyBodyEnd(text, |prefix|, postfix);
    assert r == Some(bodyEnd);
    assert FindAllFrom(text, prefix, postfix, |text|) == [];
  }
}
