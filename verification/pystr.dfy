/**
 * The Python string operations the template engine is built from:
 * `t in s` (Contains) and `s.replace(needle, rep)` (ReplaceAll), together
 * with `s.split(needle)` and `sep.join(pieces)`, which serve as an
 * independent description of what `replace` does.
 */
module PyStr {

  /** `t` occurs in `s` starting at index `i`. */
  predicate OccursAt(s: string, i: nat, t: string)
  {
    i + |t| <= |s| && s[i..i + |t|] == t
  }

  /** Python's `t in s`. */
  predicate Contains(s: string, t: string)
  {
    exists i :: 0 <= i <= |s| && OccursAt(s, i, t)
  }

  /** An occurrence in the tail of `s` is an occurrence in `s`. */
  lemma ContainsTail(s: string, t: string)
    requires |s| > 0
    ensures Contains(s[1..], t) ==> Contains(s, t)
  {
    if !Contains(s[1..], t) { return; }
    var i :| 0 <= i <= |s[1..]| && OccursAt(s[1..], i, t);
    assert s[i + 1..i + 1 + |t|] == s[1..][i..i + |t|];
    assert OccursAt(s, i + 1, t);
  }

  /**
   * Python's `s.replace(needle, rep)` for a non-empty needle: occurrences are
   * found left to right, do not overlap, and each is replaced by `rep`.
   */
  function ReplaceAll(s: string, needle: string, rep: string): string
    requires needle != []
    decreases |s|
  {
    if |s| < |needle| then s
    else if s[..|needle|] == needle then rep + ReplaceAll(s[|needle|..], needle, rep)
    else [s[0]] + ReplaceAll(s[1..], needle, rep)
  }

  /** Replacing a needle that does not occur returns the text unchanged. */
  lemma {:induction false} ReplaceAllAbsent(s: string, needle: string, rep: string)
    requires needle != [] && !Contains(s, needle)
    ensures ReplaceAll(s, needle, rep) == s
    decreases |s|
  {
    if |s| >= |needle| {
      assert !OccursAt(s, 0, needle);
      ContainsTail(s, needle);
      ReplaceAllAbsent(s[1..], needle, rep);
    }
  }

  /** Python's `s.split(needle)`: the pieces between the occurrences `ReplaceAll` finds. */
  function Split(s: string, needle: string): (pieces: seq<string>)
    requires needle != []
    ensures |pieces| >= 1
    decreases |s|
  {
    if |s| < |needle| then [s]
    else if s[..|needle|] == needle then [[]] + Split(s[|needle|..], needle)
    else
      var rest := Split(s[1..], needle);
      [[s[0]] + rest[0]] + rest[1..]
  }

  /** Python's `sep.join(pieces)`. */
  function Join(pieces: seq<string>, sep: string): string
    requires |pieces| >= 1
    decreases |pieces|
  {
    if |pieces| == 1 then pieces[0] else pieces[0] + sep + Join(pieces[1..], sep)
  }

  /** Prepending a character to the first piece prepends it to the join. */
  lemma JoinConsFirst(c: char, pieces: seq<string>, sep: string)
    requires |pieces| >= 1
    ensures Join([[c] + pieces[0]] + pieces[1..], sep) == [c] + Join(pieces, sep)
  {
    var extended := [[c] + pieces[0]] + pieces[1..];
    if |pieces| > 1 {
      assert extended[1..] == pieces[1..];
    }
  }

  /** `s.replace(needle, rep) == rep.join(s.split(needle))`. */
  lemma {:induction false} JoinSplitIsReplace(s: string, needle: string, rep: string)
    requires needle != []
    ensures Join(Split(s, needle), rep) == ReplaceAll(s, needle, rep)
    decreases |s|
  {
    if |s| < |needle| {
    } else if s[..|needle|] == needle {
      var rest := Split(s[|needle|..], needle);
      JoinSplitIsReplace(s[|needle|..], needle, rep);
      assert Split(s, needle) == [[]] + rest;
      assert ([[]] + rest)[1..] == rest;
      assert Join([[]] + rest, rep) == [] + rep + Join(rest, rep);
      assert ReplaceAll(s, needle, rep) == rep + ReplaceAll(s[|needle|..], needle, rep);
    } else {
      var rest := Split(s[1..], needle);
      JoinSplitIsReplace(s[1..], needle, rep);
      assert Split(s, needle) == [[s[0]] + rest[0]] + rest[1..];
      JoinConsFirst(s[0], rest, rep);
      assert ReplaceAll(s, needle, rep) == [s[0]] + ReplaceAll(s[1..], needle, rep);
    }
  }

  /** Replacing a needle by itself gives back the text. */
  lemma {:induction false} ReplaceWithSelf(s: string, needle: string)
    requires needle != []
    ensures ReplaceAll(s, needle, needle) == s
    decreases |s|
  {
    if |s| < |needle| {
    } else if s[..|needle|] == needle {
      ReplaceWithSelf(s[|needle|..], needle);
      assert s == s[..|needle|] + s[|needle|..];
    } else {
      ReplaceWithSelf(s[1..], needle);
      assert s == [s[0]] + s[1..];
    }
  }

  /** The first piece of a split is a prefix of the text. */
  lemma {:induction false} SplitFirstIsPrefix(s: string, needle: string)
    requires needle != []
    ensures Split(s, needle)[0] <= s
    decreases |s|
  {
    if |s| < |needle| {
    } else if s[..|needle|] == needle {
    } else {
      SplitFirstIsPrefix(s[1..], needle);
      var rest0 := Split(s[1..], needle)[0];
      assert [s[0]] + rest0 == s[..|rest0| + 1];
    }
  }

  /** No piece of a split contains the needle. */
  lemma {:induction false} SplitPiecesFree(s: string, needle: string)
    requires needle != []
    ensures forall i :: 0 <= i < |Split(s, needle)| ==> !Contains(Split(s, needle)[i], needle)
    decreases |s|
  {
    var pieces := Split(s, needle);
    if |s| < |needle| {
      assert pieces == [s];
    } else if s[..|needle|] == needle {
      SplitPiecesFree(s[|needle|..], needle);
      var rest := Split(s[|needle|..], needle);
      assert pieces == [[]] + rest;
      forall i | 0 <= i < |pieces| ensures !Contains(pieces[i], needle) {
        if i > 0 {
          assert pieces[i] == rest[i - 1];
        }
      }
    } else {
      SplitPiecesFree(s[1..], needle);
      SplitFirstIsPrefix(s[1..], needle);
      var rest := Split(s[1..], needle);
      var first := [s[0]] + rest[0];
      assert pieces == [first] + rest[1..];
      assert first == s[..|first|];
      if Contains(first, needle) {
        var j :| 0 <= j <= |first| && OccursAt(first, j, needle);
        if j == 0 {
          assert false;
        } else {
          assert rest[0][j - 1..j - 1 + |needle|] == first[j..j + |needle|];
          assert OccursAt(rest[0], j - 1, needle);
          assert false;
        }
      }
      forall i | 0 <= i < |pieces| ensures !Contains(pieces[i], needle) {
        if i > 0 {
          assert pieces[i] == rest[i];
        }
      }
    }
  }

  /** When the text is cut at least once, the first piece and the needle begin the text. */
  lemma {:induction false} SplitFirstThenNeedle(s: string, needle: string)
    requires needle != [] && |Split(s, needle)| >= 2
    ensures Split(s, needle)[0] + needle <= s
    decreases |s|
  {
    if |s| < |needle| {
    } else if s[..|needle|] == needle {
      assert Split(s, needle)[0] + needle == s[..|needle|];
    } else {
      var rest := Split(s[1..], needle);
      SplitFirstThenNeedle(s[1..], needle);
      var first := [s[0]] + rest[0];
      assert Split(s, needle)[0] == first;
      assert first + needle == [s[0]] + (rest[0] + needle);
      assert s == [s[0]] + s[1..];
    }
  }

  /**
   * Each cut is at the leftmost occurrence: a piece followed by the needle
   * holds no earlier start of the needle, so the next occurrence found is the
   * one right after the piece.
   */
  lemma {:induction false} SplitLeftmost(s: string, needle: string)
    requires needle != []
    ensures forall i, j :: 0 <= i < |Split(s, needle)| - 1 && 0 <= j < |Split(s, needle)[i]| ==>
      !OccursAt(Split(s, needle)[i] + needle, j, needle)
    decreases |s|
  {
    var pieces := Split(s, needle);
    if |s| < |needle| {
      assert pieces == [s];
    } else if s[..|needle|] == needle {
      var rest := Split(s[|needle|..], needle);
      SplitLeftmost(s[|needle|..], needle);
      assert pieces == [[]] + rest;
      forall i, j | 0 <= i < |pieces| - 1 && 0 <= j < |pieces[i]|
        ensures !OccursAt(pieces[i] + needle, j, needle)
      {
        assert i > 0 && pieces[i] == rest[i - 1];
      }
    } else {
      var rest := Split(s[1..], needle);
      SplitLeftmost(s[1..], needle);
      var first := [s[0]] + rest[0];
      assert pieces == [first] + rest[1..];
      forall i, j | 0 <= i < |pieces| - 1 && 0 <= j < |pieces[i]|
        ensures !OccursAt(pieces[i] + needle, j, needle)
      {
        if i > 0 {
          assert pieces[i] == rest[i];
        } else if j == 0 {
          SplitFirstThenNeedle(s[1..], needle);
          assert first + needle == [s[0]] + (rest[0] + needle);
          assert (first + needle)[..|needle|] == s[..|needle|];
        } else {
          assert 0 < |rest| - 1 && j - 1 < |rest[0]|;
          assert !OccursAt(rest[0] + needle, j - 1, needle);
          assert (first + needle)[j..j + |needle|] == (rest[0] + needle)[j - 1..j - 1 + |needle|];
        }
      }
    }
  }

  /**
   * What `replace` does, stated without it: the text is cut at the leftmost
   * non-overlapping occurrences of the needle into pieces free of it, and the
   * result glues the same pieces back together with `rep` where the needle was.
   */
  lemma ReplaceAllSplices(s: string, needle: string, rep: string)
    requires needle != []
    ensures Join(Split(s, needle), needle) == s
    ensures forall i :: 0 <= i < |Split(s, needle)| ==> !Contains(Split(s, needle)[i], needle)
    ensures forall i, j :: 0 <= i < |Split(s, needle)| - 1 && 0 <= j < |Split(s, needle)[i]| ==>
      !OccursAt(Split(s, needle)[i] + needle, j, needle)
    ensures ReplaceAll(s, needle, rep) == Join(Split(s, needle), rep)
  {
    JoinSplitIsReplace(s, needle, needle);
    ReplaceWithSelf(s, needle);
    SplitPiecesFree(s, needle);
    SplitLeftmost(s, needle);
    JoinSplitIsReplace(s, needle, rep);
  }

  /**
   * Replacing by the empty string never lengthens the text, and removes at
   * least one whole needle when the needle occurs.
   */
  lemma {:induction false} RemoveAllShrinks(s: string, needle: string)
    requires needle != []
    ensures |ReplaceAll(s, needle, [])| <= |s|
    ensures Contains(s, needle) ==> |ReplaceAll(s, needle, [])| + |needle| <= |s|
    decreases |s|
  {
    if |s| < |needle| {
    } else if s[..|needle|] == needle {
      RemoveAllShrinks(s[|needle|..], needle);
    } else {
      RemoveAllShrinks(s[1..], needle);
      if Contains(s, needle) {
        var i :| 0 <= i <= |s| && OccursAt(s, i, needle);
        assert i != 0;
        assert s[1..][i - 1..i - 1 + |needle|] == s[i..i + |needle|];
        assert OccursAt(s[1..], i - 1, needle);
      }
    }
  }

  /** Replacing in the whole text when the text is the needle. */
  lemma ReplaceWhole(s: string, rep: string)
    requires s != []
    ensures ReplaceAll(s, s, rep) == rep
  {
    assert s[..|s|] == s;
    assert s[|s|..] == [];
  }

  lemma ReplaceAllShort(a: string, s: string, needle: string, rep: string)
    requires needle != [] && |a + s| < |needle|
    ensures ReplaceAll(a + s, needle, rep) == a + ReplaceAll(s, needle, rep)
  {
    assert ReplaceAll(a + s, needle, rep) == a + s;
    assert ReplaceAll(s, needle, rep) == s;
  }

  /** A lead-in that lacks the needle's first character is copied as it is. */
  lemma {:induction false} ReplaceAllSkips(a: string, s: string, needle: string, rep: string)
    requires needle != [] && needle[0] !in a
    ensures ReplaceAll(a + s, needle, rep) == a + ReplaceAll(s, needle, rep)
    decreases |a|
  {
    var t := a + s;
    if a == [] {
      assert t == s;
    } else {
      var rest := ReplaceAll(s, needle, rep);
      if |t| >= |needle| {
        assert t[1..] == a[1..] + s;
        ReplaceAllSkips(a[1..], s, needle, rep);
        assert t[..|needle|][0] == a[0];
        assert t[..|needle|] != needle;
        assert ReplaceAll(t, needle, rep) == [a[0]] + (a[1..] + rest);
        assert a == [a[0]] + a[1..];
        assert [a[0]] + (a[1..] + rest) == a + rest;
      } else {
        ReplaceAllShort(a, s, needle, rep);
      }
    }
  }

}
