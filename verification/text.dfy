/**
 * String helpers of the Go standard library that the pipeline relies on:
 * `strings.Replace(s, old, new, -1)`, `strings.TrimSpace` with
 * `unicode.IsSpace`, and the separator joins built with a `strings.Builder`.
 * Strings are sequences of Unicode code points.
 */
module Text {

  /** `w` is a prefix of `s`. */
  predicate StartsWith(s: string, w: string) {
    |w| <= |s| && s[..|w|] == w
  }

  /** `w` occurs somewhere in `s` (the reference meaning of `strings.Contains`). */
  predicate Occurs(s: string, w: string)
    decreases |s|
  {
    StartsWith(s, w) || (|s| > 0 && Occurs(s[1..], w))
  }

  /**
   * `strings.Replace(s, pat, rep, -1)` for a non-empty `pat`: the occurrences
   * of `pat` are found left to right without overlap and each one is replaced.
   * A string in which `pat` does not occur is returned unchanged.
   */
  function ReplaceAll(s: string, pat: string, rep: string): (r: string)
    requires |pat| > 0
    ensures !Occurs(s, pat) ==> r == s
    decreases |s|
  {
    if |s| < |pat| then s
    else if s[..|pat|] == pat then rep + ReplaceAll(s[|pat|..], pat, rep)
    else [s[0]] + ReplaceAll(s[1..], pat, rep)
  }

  /**
   * The shape shared by every HTML tag and colour token the formatter rewrites:
   * it opens with `<` and holds no other `<`.
   */
  predicate TagShaped(w: string) {
    |w| > 0 && w[0] == '<' && '<' !in w[1..]
  }

  /** Neither string is a prefix of the other. */
  predicate Incomparable(a: string, b: string) {
    !StartsWith(a, b) && !StartsWith(b, a)
  }

  /** An occurrence of a tag-shaped `w` cannot start inside a `<`-free prefix. */
  lemma {:induction false} OccursSkipsPlainText(y: string, x: string, w: string)
    requires TagShaped(w)
    requires '<' !in y
    requires Occurs(y + x, w)
    ensures Occurs(x, w)
    decreases |y|
  {
    if |y| > 0 {
      assert (y + x)[0] == y[0];
      assert !StartsWith(y + x, w);
      assert (y + x)[1..] == y[1..] + x;
      OccursSkipsPlainText(y[1..], x, w);
    } else {
      assert y + x == x;
    }
  }

  /**
   * An occurrence of `w` in `t + x` for a tag-shaped `t` incomparable with `w`
   * lies entirely inside `x`.
   */
  lemma OccursPastTag(t: string, x: string, w: string)
    requires TagShaped(t) && TagShaped(w) && Incomparable(w, t)
    requires Occurs(t + x, w)
    ensures Occurs(x, w)
  {
    if StartsWith(t + x, w) {
      assert false;
    }
    assert (t + x)[1..] == t[1..] + x;
    OccursSkipsPlainText(t[1..], x, w);
  }

  /**
   * Replacement never manufactures a `<`-free prefix: whatever `<`-free text the
   * result begins with, the input began with it too.
   */
  lemma {:induction false} PlainPrefixSurvivesReplace(t: string, pat: string, rep: string, w: string)
    requires |pat| > 0 && |rep| > 0 && rep[0] == '<'
    requires '<' !in w
    ensures StartsWith(ReplaceAll(t, pat, rep), w) ==> StartsWith(t, w)
    decreases |t|
  {
    var r := ReplaceAll(t, pat, rep);
    if |t| < |pat| || |w| == 0 {
    } else if t[..|pat|] == pat {
      assert r[0] == '<' && w[0] != '<';
      assert |w| <= |r| ==> r[..|w|][0] != w[0];
    } else {
      assert r == [t[0]] + ReplaceAll(t[1..], pat, rep);
      assert r[1..] == ReplaceAll(t[1..], pat, rep);
      assert '<' !in w[1..];
      PlainPrefixSurvivesReplace(t[1..], pat, rep, w[1..]);
      if StartsWith(r, w) {
        assert w[1..] == r[1..][..|w| - 1];
        assert t[..|w|] == [t[0]] + t[1..][..|w| - 1];
      }
    }
  }

  /**
   * Replacing a tag-shaped `pat` by a tag-shaped `rep` leaves no tag-shaped `w`
   * in the result when `w` is `pat` itself or did not occur before, provided
   * `rep` and `w` are incomparable.
   */
  lemma {:induction false} ReplaceLeavesNoTag(s: string, pat: string, rep: string, w: string)
    requires TagShaped(pat) && TagShaped(rep) && TagShaped(w)
    requires Incomparable(w, rep)
    requires w == pat || !Occurs(s, w)
    ensures !Occurs(ReplaceAll(s, pat, rep), w)
    decreases |s|
  {
    var r := ReplaceAll(s, pat, rep);
    if |s| < |pat| {
      if w == pat && Occurs(s, w) {
        OccursNeedsRoom(s, w);
      }
    } else if s[..|pat|] == pat {
      var rest := s[|pat|..];
      assert w == pat || !Occurs(rest, w) by {
        if w != pat && Occurs(rest, w) {
          OccursInSuffix(s, |pat|, w);
        }
      }
      ReplaceLeavesNoTag(rest, pat, rep, w);
      if Occurs(r, w) {
        OccursPastTag(rep, ReplaceAll(rest, pat, rep), w);
      }
    } else {
      var tail := ReplaceAll(s[1..], pat, rep);
      assert r == [s[0]] + tail;
      assert w == pat || !Occurs(s[1..], w);
      ReplaceLeavesNoTag(s[1..], pat, rep, w);
      if Occurs(r, w) {
        assert r[1..] == tail;
        assert StartsWith(r, w);
        assert s[0] == '<';
        assert StartsWith(tail, w[1..]) by {
          assert tail[..|w| - 1] == r[..|w|][1..];
        }
        PlainPrefixSurvivesReplace(s[1..], pat, rep, w[1..]);
        assert false;
      }
    }
  }

  /** Nothing occurs in a string shorter than itself. */
  lemma {:induction false} OccursNeedsRoom(s: string, w: string)
    requires Occurs(s, w)
    ensures |w| <= |s|
    decreases |s|
  {
    if !StartsWith(s, w) {
      OccursNeedsRoom(s[1..], w);
    }
  }

  /** An occurrence in a suffix is an occurrence in the whole string. */
  lemma {:induction false} OccursInSuffix(s: string, k: nat, w: string)
    requires k <= |s|
    requires Occurs(s[k..], w)
    ensures Occurs(s, w)
    decreases k
  {
    if k > 0 {
      assert s[1..][k - 1..] == s[k..];
      OccursInSuffix(s[1..], k - 1, w);
    } else {
      assert s[0..] == s;
    }
  }

  /** Text without any `<`. */
  predicate Plain(x: string) {
    '<' !in x
  }

  /**
   * A piece of a tokenised string that a tag-shaped `pat` cannot straddle:
   * plain text, `pat` itself, or a tag incomparable with `pat`.
   */
  predicate Fits(tok: string, pat: string) {
    Plain(tok) || (TagShaped(tok) && (tok == pat || Incomparable(tok, pat)))
  }

  /** The tokens written one after another. */
  function Concat(toks: seq<string>): (r: string)
    decreases |toks|
  {
    if toks == [] then "" else toks[0] + Concat(toks[1..])
  }

  /** Every token equal to `pat` replaced by `rep`. */
  function Substitute(toks: seq<string>, pat: string, rep: string): (r: seq<string>)
    ensures |r| == |toks|
    ensures forall i :: 0 <= i < |toks| ==> r[i] == (if toks[i] == pat then rep else toks[i])
  {
    seq(|toks|, i requires 0 <= i < |toks| => if toks[i] == pat then rep else toks[i])
  }

  /** Plain text in front of a tag-shaped pattern is copied as it is. */
  lemma {:induction false} ReplacePlainPrefix(x: string, y: string, pat: string, rep: string)
    requires TagShaped(pat) && Plain(x)
    ensures ReplaceAll(x + y, pat, rep) == x + ReplaceAll(y, pat, rep)
    decreases |x|
  {
    if |x| > 0 {
      var s := x + y;
      if |s| >= |pat| {
        assert s[..|pat|][0] == x[0] != pat[0];
      }
      assert s[1..] == x[1..] + y;
      ReplacePlainPrefix(x[1..], y, pat, rep);
      assert x == [x[0]] + x[1..];
    } else {
      assert x + y == y;
    }
  }

  /** A pattern found at the start of `tok + y` is comparable with `tok`. */
  lemma PatternAtTokenStart(tok: string, y: string, pat: string)
    ensures |tok + y| >= |pat| && (tok + y)[..|pat|] == pat ==> StartsWith(tok, pat) || StartsWith(pat, tok)
  {
    var s := tok + y;
    if |s| >= |pat| && s[..|pat|] == pat {
      if |pat| <= |tok| {
        assert tok[..|pat|] == s[..|pat|];
      } else {
        assert pat[..|tok|] == s[..|tok|] == tok;
      }
    }
  }

  /** A tag that is not the pattern, and not comparable with it, is copied as it is. */
  lemma ReplaceOtherTag(tok: string, y: string, pat: string, rep: string)
    requires TagShaped(pat) && TagShaped(tok) && Incomparable(tok, pat)
    ensures ReplaceAll(tok + y, pat, rep) == tok + ReplaceAll(y, pat, rep)
  {
    var s := tok + y;
    PatternAtTokenStart(tok, y, pat);
    assert !(|s| >= |pat| && s[..|pat|] == pat);
    ReplaceCopiesHead(s, pat, rep);
    var x := tok[1..];
    assert Plain(x);
    assert s[1..] == x + y;
    ReplacePlainPrefix(x, y, pat, rep);
    assert ReplaceAll(s, pat, rep) == [tok[0]] + (x + ReplaceAll(y, pat, rep));
    assert tok == [tok[0]] + x;
  }

  /** Where the pattern does not start, replacement copies the first character. */
  lemma ReplaceCopiesHead(s: string, pat: string, rep: string)
    requires |pat| > 0 && |s| > 0
    requires !(|s| >= |pat| && s[..|pat|] == pat)
    ensures ReplaceAll(s, pat, rep) == [s[0]] + ReplaceAll(s[1..], pat, rep)
  {
    if |s| < |pat| {
      assert s == [s[0]] + s[1..];
    }
  }

  /**
   * On a string made of tokens that fit a tag-shaped pattern,
   * `strings.Replace` is token-by-token substitution.
   */
  lemma {:induction false} ReplaceTokens(toks: seq<string>, pat: string, rep: string)
    requires TagShaped(pat)
    requires forall i :: 0 <= i < |toks| ==> Fits(toks[i], pat)
    ensures ReplaceAll(Concat(toks), pat, rep) == Concat(Substitute(toks, pat, rep))
    decreases |toks|
  {
    if toks != [] {
      var tok, rest := toks[0], Concat(toks[1..]);
      ReplaceTokens(toks[1..], pat, rep);
      assert Substitute(toks, pat, rep)[1..] == Substitute(toks[1..], pat, rep);
      if Plain(tok) {
        ReplacePlainPrefix(tok, rest, pat, rep);
      } else if tok == pat {
        assert (tok + rest)[..|pat|] == pat;
        assert (tok + rest)[|pat|..] == rest;
      } else {
        ReplaceOtherTag(tok, rest, pat, rep);
      }
    }
  }

  /** Go's `unicode.IsSpace`: the ASCII spaces and the Unicode White_Space code points. */
  predicate IsSpace(c: char) {
    var n := c as int;
    || n == 0x09 || n == 0x0A || n == 0x0B || n == 0x0C || n == 0x0D || n == 0x20
    || n == 0x85 || n == 0xA0 || n == 0x1680
    || (0x2000 <= n <= 0x200A)
    || n == 0x2028 || n == 0x2029 || n == 0x202F || n == 0x205F || n == 0x3000
  }

  /** Leading white space removed: the result is a suffix, everything dropped is space. */
  function TrimLeft(s: string): (r: string)
    ensures |r| <= |s| && r == s[|s| - |r|..]
    ensures forall j :: 0 <= j < |s| - |r| ==> IsSpace(s[j])
    ensures |r| > 0 ==> !IsSpace(r[0])
    decreases |s|
  {
    if |s| > 0 && IsSpace(s[0]) then TrimLeft(s[1..]) else s
  }

  /** Trailing white space removed: the result is a prefix, everything dropped is space. */
  function TrimRight(s: string): (r: string)
    ensures |r| <= |s| && r == s[..|r|]
    ensures forall j :: |r| <= j < |s| ==> IsSpace(s[j])
    ensures |r| > 0 ==> !IsSpace(r[|r| - 1])
    decreases |s|
  {
    if |s| > 0 && IsSpace(s[|s| - 1]) then TrimRight(s[..|s| - 1]) else s
  }

  /** `strings.TrimSpace`. */
  function TrimSpace(s: string): (r: string) {
    TrimLeft(TrimRight(s))
  }

  /** The parts with `sep` between consecutive ones (`strings.Join`). */
  function Join(parts: seq<string>, sep: string): (r: string)
    decreases |parts|
  {
    if |parts| == 0 then ""
    else if |parts| == 1 then parts[0]
    else parts[0] + sep + Join(parts[1..], sep)
  }

  /** Each part followed by `sep`, as a `strings.Builder` loop writes them. */
  function Terminated(parts: seq<string>, sep: string): (r: string)
    decreases |parts|
  {
    if |parts| == 0 then "" else parts[0] + sep + Terminated(parts[1..], sep)
  }

  /** A part that neither starts nor ends with white space. */
  predicate Unpadded(p: string) {
    |p| > 0 && !IsSpace(p[0]) && !IsSpace(p[|p| - 1])
  }

  /** Terminating every part is joining them and adding one trailing separator. */
  lemma {:induction false} TerminatedIsJoinPlusSep(parts: seq<string>, sep: string)
    requires |parts| > 0
    ensures Terminated(parts, sep) == Join(parts, sep) + sep
    decreases |parts|
  {
    if |parts| > 1 {
      TerminatedIsJoinPlusSep(parts[1..], sep);
    } else {
      assert parts[1..] == [];
    }
  }

  /** A join of unpadded parts starts with its first part and ends with its last. */
  lemma {:induction false} JoinEnds(parts: seq<string>, sep: string)
    requires |parts| > 0
    requires forall k :: 0 <= k < |parts| ==> Unpadded(parts[k])
    ensures Unpadded(Join(parts, sep))
    decreases |parts|
  {
    if |parts| > 1 {
      JoinEnds(parts[1..], sep);
      var j := Join(parts[1..], sep);
      assert Join(parts, sep) == parts[0] + sep + j;
      assert Join(parts, sep)[0] == parts[0][0];
    }
  }

  /**
   * Trimming the builder's output of unpadded parts removes exactly the final
   * separator, provided the separator is all white space.
   */
  lemma TrimTerminated(parts: seq<string>, sep: string)
    requires forall k :: 0 <= k < |parts| ==> Unpadded(parts[k])
    requires forall j :: 0 <= j < |sep| ==> IsSpace(sep[j])
    ensures TrimSpace(Terminated(parts, sep)) == Join(parts, sep)
  {
    if |parts| > 0 {
      TerminatedIsJoinPlusSep(parts, sep);
      JoinEnds(parts, sep);
      var j := Join(parts, sep);
      TrimRightDropsSpace(j, sep);
      assert TrimLeft(j) == j;
    }
  }

  /** Trailing white space after a non-space character is exactly what TrimRight removes. */
  lemma {:induction false} TrimRightDropsSpace(x: string, sp: string)
    requires |x| > 0 && !IsSpace(x[|x| - 1])
    requires forall j :: 0 <= j < |sp| ==> IsSpace(sp[j])
    ensures TrimRight(x + sp) == x
    decreases |sp|
  {
    if |sp| > 0 {
      assert (x + sp)[..|x + sp| - 1] == x + sp[..|sp| - 1];
      TrimRightDropsSpace(x, sp[..|sp| - 1]);
    } else {
      assert x + sp == x;
    }
  }
}
