/** The two string operations of Python the manifest builder relies on:
    `str.endswith` and `str.replace` (every non-overlapping occurrence,
    scanned left to right). */
module Strings {

  /** `s.endswith(suffix)`. */
  predicate EndsWith(s: string, suffix: string) {
    |suffix| <= |s| && s[|s| - |suffix|..] == suffix
  }

  /** `pat` occurs in `s` starting at position `i`. */
  predicate OccursAt(s: string, pat: string, i: int) {
    0 <= i && i + |pat| <= |s| && s[i..i + |pat|] == pat
  }

  /** `pat in s`. */
  predicate Contains(s: string, pat: string) {
    exists i | 0 <= i <= |s| :: OccursAt(s, pat, i)
  }

  /** `s.replace(pat, rep)` for a non-empty `pat`: every occurrence found
      by a left-to-right scan is replaced, and scanning resumes after it. */
  function ReplaceAll(s: string, pat: string, rep: string): string
    requires |pat| > 0
    decreases |s|
  {
    if |s| < |pat| then s
    else if s[..|pat|] == pat then rep + ReplaceAll(s[|pat|..], pat, rep)
    else [s[0]] + ReplaceAll(s[1..], pat, rep)
  }

  /** Ending in `a + b` is ending in `b` with `a` just before it. */
  lemma EndsWithConcat(s: string, a: string, b: string)
    ensures EndsWith(s, a + b) <==>
            (EndsWith(s, b) && EndsWith(s[..|s| - |b|], a))
  {
    if EndsWith(s, b) {
      var t := s[..|s| - |b|];
      assert s == t + b;
      if |a| <= |t| {
        assert s[|s| - |a + b|..] == t[|t| - |a|..] + b;
      }
    }
  }

  /** Replacing a single character by a single character rewrites each
      position on its own: the length is kept, `c` becomes `d`, and every
      other character is left as it was. */
  lemma {:induction false} ReplaceCharAt(s: string, c: char, d: char)
    ensures |ReplaceAll(s, [c], [d])| == |s|
    ensures forall i :: 0 <= i < |s| ==>
              ReplaceAll(s, [c], [d])[i] == if s[i] == c then d else s[i]
  {
    if |s| > 0 {
      ReplaceCharAt(s[1..], c, d);
      assert (s[..1] == [c]) == (s[0] == c);
    }
  }

  /** A string in which the first character of `pat` never appears does not
      contain `pat`. */
  lemma NoLeadCharNoOccurrence(s: string, pat: string)
    requires |pat| > 0 && pat[0] !in s
    ensures !Contains(s, pat)
  {
    forall i | 0 <= i && i + |pat| <= |s| ensures !OccursAt(s, pat, i) {
      assert s[i..i + |pat|][0] == s[i] != pat[0];
    }
  }

  /** A string without any occurrence of `pat` is returned unchanged. */
  lemma {:induction false} ReplaceAllIdentity(s: string, pat: string, rep: string)
    requires |pat| > 0
    ensures !Contains(s, pat) ==> ReplaceAll(s, pat, rep) == s
  {
    if |s| >= |pat| && !Contains(s, pat) {
      assert !OccursAt(s, pat, 0);
      forall i ensures !OccursAt(s[1..], pat, i) {
        assert OccursAt(s[1..], pat, i) ==> OccursAt(s, pat, i + 1) by {
          if OccursAt(s[1..], pat, i) {
            assert s[1..][i..i + |pat|] == s[i + 1..i + 1 + |pat|];
          }
        }
      }
      ReplaceAllIdentity(s[1..], pat, rep);
      assert s == [s[0]] + s[1..];
    }
  }

  /** When the first character of `pat` occurs nowhere in `p`, and every
      replacement starts with that character, a prefix `p` of the result
      was already a prefix of the input. */
  lemma {:induction false} PrefixBeforeReplacement(t: string, pat: string, rep: string, p: string)
    requires |pat| > 0 && |rep| > 0 && rep[0] == pat[0] && pat[0] !in p
    ensures |p| <= |ReplaceAll(t, pat, rep)| && ReplaceAll(t, pat, rep)[..|p|] == p
            ==> |p| <= |t| && t[..|p|] == p
    decreases |t|
  {
    var r := ReplaceAll(t, pat, rep);
    if |t| >= |pat| && |p| > 0 {
      if t[..|pat|] == pat {
        assert r[0] == pat[0];
        assert |p| <= |r| ==> r[..|p|][0] != p[0];
      } else {
        var r' := ReplaceAll(t[1..], pat, rep);
        assert r == [t[0]] + r';
        PrefixBeforeReplacement(t[1..], pat, rep, p[1..]);
        if |p| <= |r| && r[..|p|] == p {
          assert r'[..|p| - 1] == r[..|p|][1..];
          assert t[..|p|] == [t[0]] + t[1..][..|p| - 1];
        }
      }
    }
  }

  /** An occurrence in `a + b` that starts after `a` is an occurrence in `b`. */
  lemma OccursInSuffix(a: string, b: string, pat: string, i: int)
    requires i >= |a|
    ensures OccursAt(a + b, pat, i) ==> OccursAt(b, pat, i - |a|)
  {
    if OccursAt(a + b, pat, i) {
      assert (a + b)[i..i + |pat|] == b[i - |a|..i - |a| + |pat|];
    }
  }

  /** Consequently an occurrence of `pat` at the very start of
      `[c] + ReplaceAll(t, pat, rep)` was already at the start of `[c] + t`. */
  lemma HeadOccurrence(c: char, t: string, pat: string, rep: string)
    requires |pat| > 0 && |rep| > 0 && rep[0] == pat[0] && pat[0] !in pat[1..]
    ensures OccursAt([c] + ReplaceAll(t, pat, rep), pat, 0) ==> OccursAt([c] + t, pat, 0)
  {
    var r := [c] + ReplaceAll(t, pat, rep);
    PrefixBeforeReplacement(t, pat, rep, pat[1..]);
    if OccursAt(r, pat, 0) {
      assert ReplaceAll(t, pat, rep)[..|pat| - 1] == r[..|pat|][1..];
      assert ([c] + t)[..|pat|] == [c] + t[..|pat| - 1];
    }
  }

  /** After `ReplaceAll` no occurrence of `pat` is left, provided that the
      replacement cannot recreate one: `pat` starts with a character that
      appears nowhere else in `pat` or in `rep` after its first position,
      `rep` starts with that same character, and `rep` does not begin with
      `pat`. */
  lemma {:induction false} ReplaceAllRemoves(s: string, pat: string, rep: string)
    requires |pat| > 0 && |pat| <= |rep| && rep[0] == pat[0]
    requires pat[0] !in pat[1..] && pat[0] !in rep[1..]
    requires rep[..|pat|] != pat
    ensures !Contains(ReplaceAll(s, pat, rep), pat)
    decreases |s|
  {
    var r := ReplaceAll(s, pat, rep);
    if |s| < |pat| {
      assert forall i :: !OccursAt(r, pat, i);
    } else if s[..|pat|] == pat {
      var r' := ReplaceAll(s[|pat|..], pat, rep);
      ReplaceAllRemoves(s[|pat|..], pat, rep);
      assert r == rep + r';
      forall i ensures !OccursAt(r, pat, i) {
        if i == 0 {
          assert |pat| <= |r| && r[..|pat|] == rep[..|pat|];
        } else if 0 < i < |rep| {
          assert r[i] == rep[1..][i - 1];
          assert r[i] != pat[0];
        } else if i >= |rep| {
          OccursInSuffix(rep, r', pat, i);
        }
      }
    } else {
      var r' := ReplaceAll(s[1..], pat, rep);
      ReplaceAllRemoves(s[1..], pat, rep);
      assert r == [s[0]] + r';
      forall i ensures !OccursAt(r, pat, i) {
        if i == 0 {
          HeadOccurrence(s[0], s[1..], pat, rep);
          assert [s[0]] + s[1..] == s;
          assert !OccursAt(s, pat, 0);
        } else if i > 0 {
          OccursInSuffix([s[0]], r', pat, i);
        }
      }
    }
  }

  /** Under the same conditions on the first character of `pat`, a string
      that ends in `pat` has its final occurrence replaced: the scan never
      consumes part of it into an earlier match. */
  lemma {:induction false} ReplaceAllSuffix(stem: string, pat: string, rep: string)
    requires |pat| > 0 && pat[0] !in pat[1..]
    ensures ReplaceAll(stem + pat, pat, rep) == ReplaceAll(stem, pat, rep) + rep
    decreases |stem|
  {
    var s := stem + pat;
    if |stem| == 0 {
      assert s == pat;
      assert s[|pat|..] == [];
    } else if |stem| >= |pat| && stem[..|pat|] == pat {
      assert s[..|pat|] == pat;
      assert s[|pat|..] == stem[|pat|..] + pat;
      ReplaceAllSuffix(stem[|pat|..], pat, rep);
    } else {
      if |stem| >= |pat| {
        assert s[..|pat|] == stem[..|pat|];
      } else {
        // The `pat[0]` at position |stem| cannot line up with a position of
        // `pat` other than its first.
        assert s[|stem|] == pat[0];
        assert s[..|pat|][|stem|] == pat[0];
        assert pat[|stem|] == pat[1..][|stem| - 1];
      }
      assert s[..|pat|] != pat;
      assert s[1..] == stem[1..] + pat;
      ReplaceAllSuffix(stem[1..], pat, rep);
      if |stem| < |pat| {
        assert ReplaceAll(stem, pat, rep) == stem == [stem[0]] + stem[1..];
        assert ReplaceAll(stem[1..], pat, rep) == stem[1..];
      }
    }
  }

  /** A string without `pat` has no `pat` after its first character. */
  lemma NoOccurrenceInTail(a: string, pat: string)
    requires |a| > 0 && !Contains(a, pat)
    ensures !Contains(a[1..], pat)
  {
    forall i ensures !OccursAt(a[1..], pat, i) {
      assert OccursAt(a[1..], pat, i) ==> OccursAt(a, pat, i + 1) by {
        if OccursAt(a[1..], pat, i) {
          assert a[1..][i..i + |pat|] == a[i + 1..i + 1 + |pat|];
        }
      }
    }
  }

  /** When `a` is non-empty and holds no `pat`, and `pat[0]` does not recur
      in `pat`, the string `a + pat + b` does not start with `pat`. */
  lemma NoOccurrenceBeforePattern(a: string, pat: string, b: string)
    requires |pat| > 0 && pat[0] !in pat[1..] && |a| > 0 && !Contains(a, pat)
    ensures (a + pat + b)[..|pat|] != pat
  {
    var s := a + pat + b;
    if |a| >= |pat| {
      assert !OccursAt(a, pat, 0);
      assert s[..|pat|] == a[..|pat|];
    } else {
      // The `pat[0]` at position |a| cannot line up with a position of
      // `pat` other than its first.
      assert s[|a|] == pat[0];
      assert s[..|pat|][|a|] == pat[0];
      assert pat[|a|] == pat[1..][|a| - 1];
    }
  }

  /** Under the same condition on `pat`, the first occurrence after a prefix
      `a` that holds none is the one replaced, and the scan resumes right
      after it: `replace(a + pat + b) == a + rep + replace(b)`. */
  lemma {:induction false} ReplaceAllSplit(a: string, pat: string, rep: string, b: string)
    requires |pat| > 0 && pat[0] !in pat[1..] && !Contains(a, pat)
    ensures ReplaceAll(a + pat + b, pat, rep) == a + rep + ReplaceAll(b, pat, rep)
    decreases |a|
  {
    var s := a + pat + b;
    if |a| == 0 {
      assert s == pat + b;
      assert s[..|pat|] == pat && s[|pat|..] == b;
    } else {
      NoOccurrenceBeforePattern(a, pat, b);
      NoOccurrenceInTail(a, pat);
      assert s[1..] == a[1..] + pat + b;
      ReplaceAllSplit(a[1..], pat, rep, b);
      assert ReplaceAll(s, pat, rep) == [a[0]] + ReplaceAll(a[1..] + pat + b, pat, rep);
      assert a == [a[0]] + a[1..];
    }
  }
}
