/**
 * Python's `str.replace(old, new)` (no count argument) and `str.count(sub)`
 * on text, as a left-to-right scan that takes the leftmost occurrence of the
 * pattern, replaces it, and resumes right after the replaced span, so that
 * occurrences never overlap and inserted text is never scanned again.
 * The lemmas here are the general facts about that scan that the
 * quote-collapse transform in module FixSql rests on.
 */
module StrReplace {

  /** `pat` occurs in `s` starting at index `i`. */
  predicate OccursAt(s: string, pat: string, i: nat)
  {
    i + |pat| <= |s| && s[i..i + |pat|] == pat
  }

  /** `pat` occurs somewhere in `s` (Python's `pat in s`). */
  predicate Contains(s: string, pat: string)
  {
    exists i: nat :: i <= |s| && OccursAt(s, pat, i)
  }

  /**
   * `s.replace(pat, rep)`. For a non-empty pattern the text is scanned left
   * to right; an empty pattern matches before every character and at the end,
   * as Python does.
   */
  function Replace(s: string, pat: string, rep: string): string
    decreases |s|
  {
    if |pat| == 0 then
      if |s| == 0 then rep else rep + [s[0]] + Replace(s[1..], pat, rep)
    else if |s| < |pat| then s
    else if s[..|pat|] == pat then rep + Replace(s[|pat|..], pat, rep)
    else [s[0]] + Replace(s[1..], pat, rep)
  }

  /** `s.count(pat)`: the number of occurrences the same scan replaces. */
  function Count(s: string, pat: string): nat
    decreases |s|
  {
    if |pat| == 0 then |s| + 1
    else if |s| < |pat| then 0
    else if s[..|pat|] == pat then 1 + Count(s[|pat|..], pat)
    else Count(s[1..], pat)
  }

  /** An occurrence in a suffix of `s` is an occurrence in `s`, shifted. */
  lemma OccursInSuffix(s: string, pat: string, k: nat, i: nat)
    requires k <= |s| && OccursAt(s[k..], pat, i)
    ensures OccursAt(s, pat, k + i)
  {
    assert s[k..][i..i + |pat|] == s[k + i..k + i + |pat|];
  }

  /** An occurrence past index 0 is an occurrence in the tail, shifted back. */
  lemma OccursInTail(s: string, pat: string, i: nat)
    requires 0 < i && OccursAt(s, pat, i)
    ensures OccursAt(s[1..], pat, i - 1)
  {
    assert s[1..][i - 1..i - 1 + |pat|] == s[i..i + |pat|];
  }

  /** A pattern whose first character does not appear in `s` does not occur in it. */
  lemma NotContainedWithoutFirstChar(s: string, pat: string)
    requires |pat| > 0 && pat[0] !in s
    ensures !Contains(s, pat)
  {
    forall i: nat | i <= |s|
      ensures !OccursAt(s, pat, i)
    {
      if i + |pat| <= |s| {
        assert s[i..i + |pat|][0] == s[i];
      }
    }
  }

  /** Without an occurrence of the pattern, replacing is the identity. */
  lemma {:induction false} ReplaceWithoutOccurrence(s: string, pat: string, rep: string)
    requires |pat| > 0 && !Contains(s, pat)
    ensures Replace(s, pat, rep) == s
    decreases |s|
  {
    if |s| >= |pat| {
      assert !OccursAt(s, pat, 0);
      assert s[0..|pat|] == s[..|pat|];
      if Contains(s[1..], pat) {
        var i: nat :| OccursAt(s[1..], pat, i);
        OccursInSuffix(s, pat, 1, i);
      }
      ReplaceWithoutOccurrence(s[1..], pat, rep);
      assert [s[0]] + s[1..] == s;
    }
  }

  /** The scan finds an occurrence exactly when the pattern occurs. */
  lemma {:induction false} CountZeroIff(s: string, pat: string)
    requires |pat| > 0
    ensures Count(s, pat) == 0 <==> !Contains(s, pat)
    decreases |s|
  {
    if |s| < |pat| {
    } else if s[..|pat|] == pat {
      assert s[0..|pat|] == s[..|pat|];
      assert OccursAt(s, pat, 0);
    } else {
      CountZeroIff(s[1..], pat);
      if Contains(s[1..], pat) {
        var i: nat :| OccursAt(s[1..], pat, i);
        OccursInSuffix(s, pat, 1, i);
      }
      if Contains(s, pat) {
        var i: nat :| OccursAt(s, pat, i);
        assert s[0..|pat|] == s[..|pat|];
        assert i != 0;
        OccursInTail(s, pat, i);
      }
    }
  }

  lemma MulSucc(c: int, d: int)
    ensures (c + 1) * d == c * d + d
  {
  }

  /** Every replaced occurrence changes the length by `|rep| - |pat|`. */
  lemma {:induction false} ReplaceLength(s: string, pat: string, rep: string)
    ensures |Replace(s, pat, rep)| == |s| + Count(s, pat) * (|rep| - |pat|)
    decreases |s|
  {
    var m := |pat|;
    var d := |rep| - m;
    if m == 0 {
      if |s| > 0 {
        var rest := Replace(s[1..], pat, rep);
        assert Replace(s, pat, rep) == rep + [s[0]] + rest;
        assert Count(s, pat) == |s| + 1;
        ReplaceLength(s[1..], pat, rep);
        assert |rest| == |s| - 1 + |s| * d;
        MulSucc(|s|, d);
      }
    } else if |s| < m {
      assert Count(s, pat) == 0;
    } else if s[..m] == pat {
      var c := Count(s[m..], pat);
      assert Count(s, pat) == c + 1;
      assert Replace(s, pat, rep) == rep + Replace(s[m..], pat, rep);
      ReplaceLength(s[m..], pat, rep);
      MulSucc(c, d);
    } else {
      assert Count(s, pat) == Count(s[1..], pat);
      assert Replace(s, pat, rep) == [s[0]] + Replace(s[1..], pat, rep);
      ReplaceLength(s[1..], pat, rep);
    }
  }

  /** Replacing with text of the same length changes a text that holds the pattern. */
  lemma {:induction false} ReplaceSameLengthChanges(s: string, pat: string, rep: string)
    requires |pat| > 0 && |rep| == |pat| && rep != pat && Contains(s, pat)
    ensures Replace(s, pat, rep) != s
    decreases |s|
  {
    var i: nat :| OccursAt(s, pat, i);
    if s[..|pat|] == pat {
      assert Replace(s, pat, rep)[..|pat|] == rep;
    } else {
      assert s[0..|pat|] == s[..|pat|];
      assert i != 0;
      OccursInTail(s, pat, i);
      ReplaceSameLengthChanges(s[1..], pat, rep);
      assert Replace(s, pat, rep)[1..] == Replace(s[1..], pat, rep);
    }
  }

  lemma ProductNonZero(c: int, d: int)
    requires c > 0 && d != 0
    ensures c * d != 0
  {
    if d > 0 {
      assert c * d >= d;
    } else {
      assert c * (-d) >= -d;
    }
  }

  /** Replacing with text of another length changes the length of a text that holds the pattern. */
  lemma ReplaceOtherLengthChanges(s: string, pat: string, rep: string)
    requires |pat| > 0 && |rep| != |pat| && Contains(s, pat)
    ensures |Replace(s, pat, rep)| != |s|
  {
    ReplaceLength(s, pat, rep);
    CountZeroIff(s, pat);
    ProductNonZero(Count(s, pat), |rep| - |pat|);
  }

  /**
   * For a non-empty pattern and a replacement other than the pattern itself,
   * `replace` leaves the text unchanged exactly when the pattern does not occur.
   */
  lemma ReplaceIdentityIff(s: string, pat: string, rep: string)
    requires |pat| > 0 && rep != pat
    ensures Replace(s, pat, rep) == s <==> !Contains(s, pat)
  {
    if !Contains(s, pat) {
      ReplaceWithoutOccurrence(s, pat, rep);
    } else if |rep| == |pat| {
      ReplaceSameLengthChanges(s, pat, rep);
    } else {
      ReplaceOtherLengthChanges(s, pat, rep);
    }
  }

  /** A text that starts with the pattern: the first span is replaced, the scan resumes after it. */
  lemma ReplaceAtStart(pat: string, x: string, rep: string)
    requires |pat| > 0
    ensures Replace(pat + x, pat, rep) == rep + Replace(x, pat, rep)
  {
    assert (pat + x)[..|pat|] == pat;
    assert (pat + x)[|pat|..] == x;
  }

  /** A character that cannot start an occurrence is copied and the scan moves on. */
  lemma ReplaceSkipsChar(c: char, x: string, pat: string, rep: string)
    requires |pat| > 0 && c != pat[0]
    ensures Replace([c] + x, pat, rep) == [c] + Replace(x, pat, rep)
  {
    var s := [c] + x;
    assert s[1..] == x;
    if |s| >= |pat| {
      assert s[..|pat|][0] == c;
    }
  }

  /** No occurrence can straddle a seam next to a character foreign to the pattern. */
  lemma SeamWindow(a: string, b: string, pat: string)
    requires |a| < |pat| <= |a| + |b|
    requires (|a| > 0 && a[|a| - 1] !in pat) || (|b| > 0 && b[0] !in pat)
    ensures (a + b)[..|pat|] != pat
  {
    var w := (a + b)[..|pat|];
    if |a| > 0 && a[|a| - 1] !in pat {
      assert w[|a| - 1] == a[|a| - 1];
      assert pat[|a| - 1] in pat;
    } else {
      assert w[|a|] == b[0];
      assert pat[|a|] in pat;
    }
  }

  /**
   * Replacing distributes over a concatenation when no occurrence can straddle
   * the seam: the last character of `a`, or the first character of `b`, is not
   * a character of the pattern.
   */
  lemma {:induction false} ReplaceCut(a: string, b: string, pat: string, rep: string)
    requires |pat| > 0
    requires (|a| > 0 && a[|a| - 1] !in pat) || (|b| > 0 && b[0] !in pat)
    ensures Replace(a + b, pat, rep) == Replace(a, pat, rep) + Replace(b, pat, rep)
    decreases |a|, 2
  {
    var s := a + b;
    if |a| == 0 {
      assert s == b;
    } else if |s| < |pat| {
      assert Replace(s, pat, rep) == s;
      assert Replace(a, pat, rep) == a;
      assert Replace(b, pat, rep) == b;
    } else {
      if |pat| > |a| {
        SeamWindow(a, b, pat);
      }
      if s[..|pat|] == pat {
        ReplaceCutAtMatch(a, b, pat, rep);
      } else {
        ReplaceCutAtSkip(a, b, pat, rep);
      }
    }
  }

  /** One step of the scan at an occurrence. */
  lemma ReplaceMatchStep(s: string, pat: string, rep: string)
    requires 0 < |pat| <= |s| && s[..|pat|] == pat
    ensures Replace(s, pat, rep) == rep + Replace(s[|pat|..], pat, rep)
  {
  }

  /** One step of the scan where no occurrence begins: the text is shorter than the pattern. */
  lemma ReplaceSkipShort(s: string, pat: string, rep: string)
    requires 0 < |s| < |pat|
    ensures Replace(s, pat, rep) == [s[0]] + Replace(s[1..], pat, rep)
  {
    assert Replace(s[1..], pat, rep) == s[1..];
    assert s == [s[0]] + s[1..];
  }

  /** One step of the scan where no occurrence begins: the window differs from the pattern. */
  lemma ReplaceSkipMismatch(s: string, pat: string, rep: string)
    requires 0 < |pat| <= |s| && s[..|pat|] != pat
    ensures Replace(s, pat, rep) == [s[0]] + Replace(s[1..], pat, rep)
  {
  }

  lemma Associative(a: string, b: string, c: string)
    ensures a + (b + c) == a + b + c
  {
  }

  /** Slicing a concatenation inside its first part. */
  lemma ConcatSlices(a: string, b: string, k: nat)
    requires k <= |a|
    ensures (a + b)[k..] == a[k..] + b
    ensures (a + b)[..k] == a[..k]
    ensures 0 < |a| ==> (a + b)[0] == a[0]
  {
  }

  /** The seam condition of ReplaceCut holds again after dropping a proper prefix of `a`. */
  lemma SeamSuffix(a: string, b: string, pat: string, k: nat)
    requires k < |a|
    requires (|a| > 0 && a[|a| - 1] !in pat) || (|b| > 0 && b[0] !in pat)
    ensures (|a[k..]| > 0 && a[k..][|a[k..]| - 1] !in pat) || (|b| > 0 && b[0] !in pat)
  {
    assert a[k..][|a[k..]| - 1] == a[|a| - 1];
  }

  /** The step of the scan that ReplaceCutAtMatch takes, on the joined text and on `a`. */
  lemma CutMatchSteps(a: string, b: string, pat: string, rep: string)
    requires 0 < |pat| <= |a| && (a + b)[..|pat|] == pat
    ensures Replace(a + b, pat, rep) == rep + Replace(a[|pat|..] + b, pat, rep)
    ensures Replace(a, pat, rep) == rep + Replace(a[|pat|..], pat, rep)
  {
    ConcatSlices(a, b, |pat|);
    ReplaceMatchStep(a + b, pat, rep);
    ReplaceMatchStep(a, pat, rep);
  }

  /** ReplaceCut when the joined text starts with the pattern, which then lies inside `a`. */
  lemma {:induction false} ReplaceCutAtMatch(a: string, b: string, pat: string, rep: string)
    requires 0 < |pat| <= |a| && (a + b)[..|pat|] == pat
    requires (|a| > 0 && a[|a| - 1] !in pat) || (|b| > 0 && b[0] !in pat)
    ensures Replace(a + b, pat, rep) == Replace(a, pat, rep) + Replace(b, pat, rep)
    decreases |a|, 1
  {
    CutMatchSteps(a, b, pat, rep);
    ReplaceCutRest(a, b, pat, rep, |pat|);
    Associative(rep, Replace(a[|pat|..], pat, rep), Replace(b, pat, rep));
  }

  /** The step of the scan that ReplaceCutAtSkip takes, on the joined text and on `a`. */
  lemma CutSkipSteps(a: string, b: string, pat: string, rep: string)
    requires 0 < |pat| <= |a| + |b| && 0 < |a| && (a + b)[..|pat|] != pat
    ensures Replace(a + b, pat, rep) == [a[0]] + Replace(a[1..] + b, pat, rep)
    ensures Replace(a, pat, rep) == [a[0]] + Replace(a[1..], pat, rep)
  {
    ConcatSlices(a, b, 1);
    ReplaceSkipMismatch(a + b, pat, rep);
    if |a| >= |pat| {
      ConcatSlices(a, b, |pat|);
      ReplaceSkipMismatch(a, pat, rep);
    } else {
      ReplaceSkipShort(a, pat, rep);
    }
  }

  /** ReplaceCut when the joined text does not start with the pattern. */
  lemma {:induction false} ReplaceCutAtSkip(a: string, b: string, pat: string, rep: string)
    requires 0 < |pat| <= |a| + |b| && 0 < |a| && (a + b)[..|pat|] != pat
    requires (|a| > 0 && a[|a| - 1] !in pat) || (|b| > 0 && b[0] !in pat)
    ensures Replace(a + b, pat, rep) == Replace(a, pat, rep) + Replace(b, pat, rep)
    decreases |a|, 1
  {
    CutSkipSteps(a, b, pat, rep);
    ReplaceCutRest(a, b, pat, rep, 1);
    Associative([a[0]], Replace(a[1..], pat, rep), Replace(b, pat, rep));
  }

  /** ReplaceCut for what remains of `a` after one step of the scan. */
  lemma {:induction false} ReplaceCutRest(a: string, b: string, pat: string, rep: string, k: nat)
    requires 0 < |pat| && 0 < k <= |a|
    requires (|a| > 0 && a[|a| - 1] !in pat) || (|b| > 0 && b[0] !in pat)
    ensures Replace(a[k..] + b, pat, rep) == Replace(a[k..], pat, rep) + Replace(b, pat, rep)
    decreases |a|, 0
  {
    if k < |a| {
      SeamSuffix(a, b, pat, k);
      ReplaceCut(a[k..], b, pat, rep);
    } else {
      assert a[k..] + b == b;
      assert Replace(a[k..], pat, rep) == [];
    }
  }

  /** Counting distributes over a concatenation under the same seam condition as ReplaceCut. */
  lemma {:induction false} CountCut(a: string, b: string, pat: string)
    requires |pat| > 0
    requires (|a| > 0 && a[|a| - 1] !in pat) || (|b| > 0 && b[0] !in pat)
    ensures Count(a + b, pat) == Count(a, pat) + Count(b, pat)
    decreases |a|
  {
    var m := |pat|;
    var s := a + b;
    if |a| == 0 {
      assert s == b;
    } else if |s| < m {
      assert Count(a, pat) == 0 && Count(b, pat) == 0;
    } else {
      if m > |a| {
        SeamWindow(a, b, pat);
      }
      if s[..m] == pat {
        assert a[..m] == s[..m];
        assert s[m..] == a[m..] + b;
        assert Count(s, pat) == 1 + Count(a[m..] + b, pat);
        assert Count(a, pat) == 1 + Count(a[m..], pat);
        if |a| > m {
          assert a[m..][|a[m..]| - 1] == a[|a| - 1];
          CountCut(a[m..], b, pat);
        } else {
          assert a[m..] == [];
        }
      } else {
        assert s[1..] == a[1..] + b;
        assert Count(s, pat) == Count(a[1..] + b, pat);
        if |a| >= m {
          assert a[..m] == s[..m];
          assert Count(a, pat) == Count(a[1..], pat);
        } else {
          assert Count(a, pat) == 0 && Count(a[1..], pat) == 0;
        }
        if |a| > 1 {
          assert a[1..][|a[1..]| - 1] == a[|a| - 1];
          CountCut(a[1..], b, pat);
        } else {
          assert a[1..] == [];
        }
      }
    }
  }

  /** Every character of the result comes from the text or from the replacement. */
  lemma {:induction false} ReplaceKeepsOut(s: string, pat: string, rep: string, c: char)
    requires c !in s && c !in rep
    ensures c !in Replace(s, pat, rep)
    decreases |s|
  {
    if |pat| == 0 {
      if |s| > 0 {
        assert s[0] in s;
        ReplaceKeepsOut(s[1..], pat, rep, c);
      }
    } else if |s| < |pat| {
    } else if s[..|pat|] == pat {
      assert forall k :: 0 <= k < |s[|pat|..]| ==> s[|pat|..][k] == s[|pat| + k];
      ReplaceKeepsOut(s[|pat|..], pat, rep, c);
    } else {
      assert s[0] in s;
      assert forall k :: 0 <= k < |s[1..]| ==> s[1..][k] == s[1 + k];
      ReplaceKeepsOut(s[1..], pat, rep, c);
    }
  }

  /** With a non-empty replacement, the result of a non-empty text starts with the text's or the replacement's first character. */
  lemma ReplaceHead(s: string, pat: string, rep: string)
    requires |s| > 0 && |rep| > 0
    ensures |Replace(s, pat, rep)| > 0
    ensures Replace(s, pat, rep)[0] == s[0] || Replace(s, pat, rep)[0] == rep[0]
  {
  }
}
