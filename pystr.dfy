/**
  The few Python `str` operations that the newsfeed's template filters are
  built from, modelled on `string` (= `seq<char>`):

  - `s.replace(pat, rep)`  as `ReplaceAll(s, pat, rep)`
  - `s.split(sep)`         as `Split(s, sep)`
  - `sep.join(pieces)`     as `Join(pieces, sep)`
  - `pat in s`             as `Contains(s, pat)`

  Only non-empty patterns and separators are modelled (see README).
 */
module PyStrings {

  /** `pat` occurs in `s` starting at index `k`. */
  predicate OccursAt(s: string, pat: string, k: int)
  {
    0 <= k && k + |pat| <= |s| && s[k..k + |pat|] == pat
  }

  /** Python's substring test `pat in s`. */
  predicate Contains(s: string, pat: string)
  {
    exists k | 0 <= k <= |s| - |pat| :: OccursAt(s, pat, k)
  }

  /** No occurrence of `pat` in `s` starts before index `n`. */
  predicate NoneBefore(s: string, pat: string, n: int)
  {
    forall k :: 0 <= k < n ==> !OccursAt(s, pat, k)
  }

  /**
    Python's `s.replace(pat, rep)`: scanning from the left, every occurrence
    of `pat` is replaced by `rep`, and scanning resumes after the occurrence,
    so occurrences never overlap and text produced by `rep` is not rescanned.
    Deleting (`rep == ""`) never makes the string longer.
   */
  function ReplaceAll(s: string, pat: string, rep: string): (r: string)
    requires |pat| > 0
    ensures rep == "" ==> |r| <= |s|
    decreases |s|
  {
    if |s| < |pat| then s
    else if s[..|pat|] == pat then rep + ReplaceAll(s[|pat|..], pat, rep)
    else [s[0]] + ReplaceAll(s[1..], pat, rep)
  }

  /**
    Python's `s.split(sep)` for a non-empty separator: the pieces between
    the occurrences of `sep`, found from the left without overlap. The list
    is never empty, so `s.split(sep)[0]` never fails.
   */
  function Split(s: string, sep: string): (pieces: seq<string>)
    requires |sep| > 0
    ensures |pieces| >= 1
    decreases |s|
  {
    if |s| < |sep| then [s]
    else if s[..|sep|] == sep then [""] + Split(s[|sep|..], sep)
    else
      var rest := Split(s[1..], sep);
      [[s[0]] + rest[0]] + rest[1..]
  }

  /** Python's `sep.join(pieces)`. */
  function Join(pieces: seq<string>, sep: string): string
  {
    if |pieces| == 0 then ""
    else if |pieces| == 1 then pieces[0]
    else pieces[0] + sep + Join(pieces[1..], sep)
  }

  /** An occurrence one step further into `s` is an occurrence in `s[1..]`. */
  lemma OccursAtTail(s: string, pat: string, k: int)
    requires |s| > 0 && 0 <= k
    ensures OccursAt(s, pat, k + 1) <==> OccursAt(s[1..], pat, k)
  {
  }

  /** When `s` does not start with `pat`, `pat` is in `s` iff it is in `s[1..]`. */
  lemma ContainsTail(s: string, pat: string)
    requires |s| > 0 && !OccursAt(s, pat, 0)
    ensures Contains(s, pat) <==> Contains(s[1..], pat)
  {
    if Contains(s, pat) {
      var k :| 0 <= k <= |s| - |pat| && OccursAt(s, pat, k);
      assert k != 0;
      OccursAtTail(s, pat, k - 1);
    }
    if Contains(s[1..], pat) {
      var k :| 0 <= k <= |s[1..]| - |pat| && OccursAt(s[1..], pat, k);
      OccursAtTail(s, pat, k);
    }
  }

  /** Gluing a character onto the first piece glues it onto the joined string. */
  lemma JoinConsFirst(c: char, pieces: seq<string>, sep: string)
    requires |pieces| >= 1
    ensures Join([[c] + pieces[0]] + pieces[1..], sep) == [c] + Join(pieces, sep)
  {
  }

  /** An empty first piece contributes only the separator that follows it. */
  lemma JoinConsEmpty(pieces: seq<string>, sep: string)
    requires |pieces| >= 1
    ensures Join([""] + pieces, sep) == sep + Join(pieces, sep)
  {
  }

  /** Where `pat` does not occur, `replace` leaves the string as it is. */
  lemma {:induction false} ReplaceAllAbsent(s: string, pat: string, rep: string)
    requires |pat| > 0 && !Contains(s, pat)
    ensures ReplaceAll(s, pat, rep) == s
    decreases |s|
  {
    if |s| >= |pat| {
      assert !OccursAt(s, pat, 0);
      ContainsTail(s, pat);
      ReplaceAllAbsent(s[1..], pat, rep);
    }
  }

  /** A string that lacks the first character of `pat` cannot contain `pat`. */
  lemma AbsentByFirstChar(s: string, pat: string)
    requires |pat| > 0 && pat[0] !in s
    ensures !Contains(s, pat)
  {
  }

  /** Where no occurrence of `pat` starts, `replace` copies the first character. */
  lemma ReplaceAllStep(s: string, pat: string, rep: string)
    requires |pat| > 0 && |s| > 0 && !OccursAt(s, pat, 0)
    ensures ReplaceAll(s, pat, rep) == [s[0]] + ReplaceAll(s[1..], pat, rep)
  {
  }

  /** `replace` copies a leading part of `s` in which no occurrence of `pat` starts. */
  lemma {:induction false} ReplaceAllSkip(u: string, t: string, pat: string, rep: string)
    requires |pat| > 0 && NoneBefore(u + t, pat, |u|)
    ensures ReplaceAll(u + t, pat, rep) == u + ReplaceAll(t, pat, rep)
    decreases |u|
  {
    var s := u + t;
    if |u| == 0 {
      assert s == t;
    } else {
      var v := u[1..];
      assert s[1..] == v + t;
      forall k | 0 <= k < |v| ensures !OccursAt(v + t, pat, k) {
        OccursAtTail(s, pat, k);
      }
      ReplaceAllSkip(v, t, pat, rep);
      ReplaceAllStep(s, pat, rep);
      assert u == [u[0]] + v;
    }
  }

  /** `replace` rewrites a leading occurrence of `pat` and carries on after it. */
  lemma ReplaceAllLeading(t: string, pat: string, rep: string)
    requires |pat| > 0
    ensures ReplaceAll(pat + t, pat, rep) == rep + ReplaceAll(t, pat, rep)
  {
  }

  /** Deleting an occurrence that is there makes the string strictly shorter. */
  lemma {:induction false} RemoveAllShrinks(s: string, pat: string)
    requires |pat| > 0 && Contains(s, pat)
    ensures |ReplaceAll(s, pat, "")| < |s|
    decreases |s|
  {
    var k :| OccursAt(s, pat, k);
    assert |s| >= |pat|;
    if s[..|pat|] != pat {
      assert !OccursAt(s, pat, 0);
      ContainsTail(s, pat);
      RemoveAllShrinks(s[1..], pat);
    }
  }

  /** Deleting `pat` changes nothing exactly when `pat` does not occur. */
  lemma RemoveAllUnchangedIff(s: string, pat: string)
    requires |pat| > 0
    ensures ReplaceAll(s, pat, "") == s <==> !Contains(s, pat)
  {
    if Contains(s, pat) {
      RemoveAllShrinks(s, pat);
    } else {
      ReplaceAllAbsent(s, pat, "");
    }
  }

  /** Joining the pieces of a split with the same separator gives back the string. */
  lemma {:induction false} JoinSplit(s: string, sep: string)
    requires |sep| > 0
    ensures Join(Split(s, sep), sep) == s
    decreases |s|
  {
    if |s| < |sep| {
    } else if s[..|sep|] == sep {
      var t := s[|sep|..];
      JoinSplit(t, sep);
      JoinConsEmpty(Split(t, sep), sep);
      assert s == sep + t;
    } else {
      var t := s[1..];
      JoinSplit(t, sep);
      JoinConsFirst(s[0], Split(t, sep), sep);
      assert s == [s[0]] + t;
    }
  }

  /** Python's identity `s.replace(pat, rep) == rep.join(s.split(pat))`. */
  lemma {:induction false} ReplaceAllIsJoinSplit(s: string, pat: string, rep: string)
    requires |pat| > 0
    ensures ReplaceAll(s, pat, rep) == Join(Split(s, pat), rep)
    decreases |s|
  {
    if |s| < |pat| {
    } else if s[..|pat|] == pat {
      var t := s[|pat|..];
      ReplaceAllIsJoinSplit(t, pat, rep);
      JoinConsEmpty(Split(t, pat), rep);
    } else {
      ReplaceAllIsJoinSplit(s[1..], pat, rep);
      JoinConsFirst(s[0], Split(s[1..], pat), rep);
    }
  }

  /**
    `s.split(sep)[0]` is the text before the first occurrence of `sep`: a
    prefix of `s`, before which `sep` does not start, followed either by an
    occurrence of `sep` or by nothing when `sep` is not in `s` at all.
   */
  lemma {:induction false} SplitFirst(s: string, sep: string)
    requires |sep| > 0
    ensures var p := Split(s, sep)[0];
      && p <= s
      && NoneBefore(s, sep, |p|)
      && (OccursAt(s, sep, |p|) || (p == s && !Contains(s, sep)))
    decreases |s|
  {
    var p := Split(s, sep)[0];
    if |s| < |sep| {
      assert p == s;
      assert !Contains(s, sep);
    } else if s[..|sep|] == sep {
      assert p == "";
      assert OccursAt(s, sep, 0);
    } else {
      var t := s[1..];
      var q := Split(t, sep)[0];
      SplitFirst(t, sep);
      assert p == [s[0]] + q;
      assert p <= s;
      forall k | 0 <= k < |p| ensures !OccursAt(s, sep, k) {
        if k > 0 { OccursAtTail(s, sep, k - 1); }
      }
      OccursAtTail(s, sep, |q|);
      ContainsTail(s, sep);
    }
  }

  /**
    For a one-character separator `c`, `s.split(c)[0]` is the longest
    prefix of `s` without `c`: it holds no `c`, and it is all of `s` or is
    followed by `c`.
   */
  lemma SplitFirstChar(s: string, c: char)
    ensures var p := Split(s, [c])[0];
      && p <= s
      && c !in p
      && (p == s || s[|p|] == c)
      && (c !in s ==> p == s)
  {
  }
}
