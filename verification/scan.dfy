/**
 * Building blocks for the hand-written scanners of the four patterns in
 * tarsier.go. Every pattern there is compiled with `(?mi)`: letters match
 * either case, and `.` matches anything except a newline because the `s`
 * flag is absent. Pattern letters here are all ASCII letters whose only case
 * partner in Go's folding tables is their ASCII partner, so ASCII folding is
 * exact.
 */
module Scan {
  import opened Wrappers

  /** ASCII lower-casing; every other character is its own fold. */
  function Lower(c: char): (r: char) {
    if 'A' <= c <= 'Z' then (c as int + 32) as char else c
  }

  /** The lower-case literal `pat` matches `s` at position `i`, ignoring case. */
  predicate CiAt(s: string, i: nat, pat: string) {
    i + |pat| <= |s| && forall j :: i <= j < i + |pat| ==> Lower(s[j]) == pat[j - i]
  }

  /**
   * A lazy `.*?` followed by the literal `pat`, starting at `from`: the first
   * position where `pat` matches that is reachable without crossing a newline.
   */
  function NextCi(s: string, from: nat, pat: string): (r: Option<nat>)
    requires |pat| > 0
    ensures r.Some? ==> from <= r.value
    decreases |s| - from
  {
    if CiAt(s, from, pat) then Some(from)
    else if from < |s| && s[from] != '\n' then NextCi(s, from + 1, pat)
    else None
  }

  /** What NextCi finds is a match of the literal. */
  lemma {:induction false} NextCiFound(s: string, from: nat, pat: string)
    requires |pat| > 0
    ensures NextCi(s, from, pat).Some? ==> CiAt(s, NextCi(s, from, pat).value, pat)
    decreases |s| - from
  {
    if !CiAt(s, from, pat) && from < |s| && s[from] != '\n' {
      NextCiFound(s, from + 1, pat);
    }
  }

  /** Where the literal's first character never occurs, NextCi finds nothing. */
  lemma {:induction false} NextCiMissingHead(s: string, from: nat, pat: string)
    requires |pat| > 0
    requires forall k :: from <= k < |s| ==> Lower(s[k]) != pat[0]
    ensures NextCi(s, from, pat).None?
    decreases |s| - from
  {
    if from < |s| {
      assert !CiAt(s, from, pat) by {
        assert Lower(s[from + 0]) != pat[0];
      }
      NextCiMissingHead(s, from + 1, pat);
    }
  }

  /** What NextCi finds fits inside `s`. */
  lemma {:induction false} NextCiBound(s: string, from: nat, pat: string)
    requires |pat| > 0
    ensures NextCi(s, from, pat).Some? ==> NextCi(s, from, pat).value + |pat| <= |s|
    decreases |s| - from
  {
    if !CiAt(s, from, pat) && from < |s| && s[from] != '\n' {
      NextCiBound(s, from + 1, pat);
    }
  }

  /**
   * NextCi finds the first reachable match: nothing matches between `from`
   * and it, no newline lies in between, and when it finds nothing no match is
   * reachable at all.
   */
  lemma {:induction false} NextCiFirst(s: string, from: nat, pat: string)
    requires |pat| > 0
    ensures NextCi(s, from, pat).Some? ==>
      && CiAt(s, NextCi(s, from, pat).value, pat)
      && '\n' !in s[from..NextCi(s, from, pat).value]
      && forall k :: from <= k < NextCi(s, from, pat).value ==> !CiAt(s, k, pat)
    ensures NextCi(s, from, pat).None? ==>
      forall k :: from <= k <= |s| && '\n' !in s[from..k] ==> !CiAt(s, k, pat)
    decreases |s| - from
  {
    if !CiAt(s, from, pat) && from < |s| && s[from] != '\n' {
      NextCiFirst(s, from + 1, pat);
      var r := NextCi(s, from + 1, pat);
      if r.Some? {
        assert s[from..r.value] == [s[from]] + s[from + 1..r.value];
      } else {
        forall k | from < k <= |s| && '\n' !in s[from..k]
          ensures !CiAt(s, k, pat)
        {
          assert s[from + 1..k] == s[from..k][1..];
        }
      }
    } else if !CiAt(s, from, pat) && from < |s| {
      forall k | from < k <= |s|
        ensures '\n' in s[from..k]
      {
        assert s[from..k][0] == s[from];
      }
    }
  }

  /**
   * A greedy `.*` followed by the literal `pat`, starting at `from`: the last
   * position where `pat` matches that is reachable without crossing a newline.
   */
  function LastCi(s: string, from: nat, pat: string): (r: Option<nat>)
    requires |pat| > 0
    ensures r.Some? ==> from <= r.value
    decreases |s| - from
  {
    var later := if from < |s| && s[from] != '\n' then LastCi(s, from + 1, pat) else None;
    if later.Some? then later
    else if CiAt(s, from, pat) then Some(from)
    else None
  }

  /**
   * LastCi finds the last reachable match: no newline lies before it, no
   * reachable match lies after it, and when it finds nothing no match is
   * reachable at all.
   */
  lemma {:induction false} LastCiLast(s: string, from: nat, pat: string)
    requires |pat| > 0
    ensures LastCi(s, from, pat).Some? ==>
      && CiAt(s, LastCi(s, from, pat).value, pat)
      && '\n' !in s[from..LastCi(s, from, pat).value]
      && forall k :: LastCi(s, from, pat).value < k <= |s| && '\n' !in s[from..k] ==> !CiAt(s, k, pat)
    ensures LastCi(s, from, pat).None? ==>
      forall k :: from <= k <= |s| && '\n' !in s[from..k] ==> !CiAt(s, k, pat)
    decreases |s| - from
  {
    if from < |s| && s[from] != '\n' {
      LastCiLast(s, from + 1, pat);
      var later := LastCi(s, from + 1, pat);
      if later.Some? {
        assert s[from..later.value] == [s[from]] + s[from + 1..later.value];
        forall k | later.value < k <= |s| && '\n' !in s[from..k]
          ensures !CiAt(s, k, pat)
        {
          assert s[from + 1..k] == s[from..k][1..];
        }
      } else {
        forall k | from < k <= |s| && '\n' !in s[from..k]
          ensures !CiAt(s, k, pat)
        {
          assert s[from + 1..k] == s[from..k][1..];
        }
      }
    } else if from < |s| {
      forall k | from < k <= |s|
        ensures '\n' in s[from..k]
      {
        assert s[from..k][0] == s[from];
      }
    }
  }

  /** Matching a literal only looks at the characters it covers. */
  lemma CiAtWindow(s: string, a: nat, b: nat, x: nat, pat: string)
    requires a <= b <= |s|
    requires a + x + |pat| <= b
    ensures CiAt(s[a..b], x, pat) <==> CiAt(s, a + x, pat)
  {
    forall p | x <= p < x + |pat|
      ensures s[a..b][p] == s[a + p]
    {
    }
  }

  /** Only the character itself folds to a character that is not a letter. */
  lemma LowerOfSymbol(c: char, d: char)
    requires !('a' <= d <= 'z') && !('A' <= d <= 'Z')
    ensures Lower(c) == d <==> c == d
  {
    if 'A' <= c <= 'Z' {
      assert 'a' as int <= Lower(c) as int <= 'z' as int;
    }
  }

  /** Concatenation regroups. */
  lemma Assoc(x: string, y: string, z: string)
    ensures x + y + z == x + (y + z)
  {
  }

  /** The first character and the rest, followed by `r`, spell `x + r`. */
  lemma ConsSplit(x: string, r: string)
    requires |x| > 0
    ensures [x[0]] + (x[1..] + r) == x + r
  {
    assert x == [x[0]] + x[1..];
  }

  /** A slice of a slice is a slice of the original. */
  lemma SliceOfSlice(s: string, a: nat, b: nat, c: nat, d: nat)
    requires a <= b <= |s| && c <= d <= b - a
    ensures s[a..b][c..d] == s[a + c..a + d]
  {
    var u, v := s[a..b][c..d], s[a + c..a + d];
    assert |u| == |v|;
    forall p | 0 <= p < |u|
      ensures u[p] == v[p]
    {
    }
  }

  /** The first reachable match is recognised by its three properties. */
  lemma NextCiIs(s: string, from: nat, t: nat, pat: string)
    requires |pat| > 0
    requires from <= t && CiAt(s, t, pat) && '\n' !in s[from..t]
    requires forall k :: from <= k < t ==> !CiAt(s, k, pat)
    ensures NextCi(s, from, pat) == Some(t)
    decreases t - from
  {
    if from < t {
      assert s[from..t][0] == s[from];
      assert s[from + 1..t] == s[from..t][1..];
      NextCiIs(s, from + 1, t, pat);
    }
  }

  /** Scanning behind a prefix finds what scanning the suffix alone finds, shifted. */
  lemma {:induction false} NextCiShift(x: string, y: string, f: nat, pat: string)
    requires |pat| > 0
    ensures NextCi(y, f, pat).Some? ==> NextCi(x + y, |x| + f, pat) == Some(|x| + NextCi(y, f, pat).value)
    ensures NextCi(y, f, pat).None? ==> NextCi(x + y, |x| + f, pat).None?
    decreases |y| - f
  {
    CiAtShift(x, y, f, pat);
    if !CiAt(y, f, pat) && f < |y| && y[f] != '\n' {
      assert (x + y)[|x| + f] == y[f];
      NextCiShift(x, y, f + 1, pat);
    }
  }

  /** Matching a literal behind a prefix is matching it in the suffix. */
  lemma CiAtShift(x: string, y: string, f: nat, pat: string)
    ensures CiAt(x + y, |x| + f, pat) <==> CiAt(y, f, pat)
  {
    if f + |pat| <= |y| {
      forall p | f <= p < f + |pat|
        ensures (x + y)[|x| + p] == y[p]
      {
      }
    }
  }

  /** A reachable match found in `s` is found the same way inside any window holding it. */
  lemma {:induction false} NextCiWindow(s: string, a: nat, b: nat, from: nat, k: nat, pat: string)
    requires |pat| > 0 && a <= from && b <= |s|
    requires NextCi(s, from, pat) == Some(k) && k + |pat| <= b
    ensures NextCi(s[a..b], from - a, pat) == Some(k - a)
    decreases k - from
  {
    if from < k {
      WindowStep(s, a, b, from, pat);
      NextCiWindow(s, a, b, from + 1, k, pat);
    } else {
      CiAtWindow(s, a, b, k - a, pat);
    }
  }

  /** A step of the scan in `s` is a step of the scan in a window that covers the literal. */
  lemma WindowStep(s: string, a: nat, b: nat, from: nat, pat: string)
    requires |pat| > 0 && a <= from && from + |pat| < b <= |s|
    requires NextCi(s, from, pat).Some? && NextCi(s, from, pat).value != from
    ensures NextCi(s, from, pat) == NextCi(s, from + 1, pat)
    ensures NextCi(s[a..b], from - a, pat) == NextCi(s[a..b], from + 1 - a, pat)
  {
    CiAtWindow(s, a, b, from - a, pat);
    assert s[a..b][from - a] == s[from];
  }
}
