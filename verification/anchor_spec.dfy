/**
 * The meaning of the two anchor patterns, independent of the scanner:
 *   open tag      `(?mi)<a.+?href\=\"(.+?)\".*?\>`
 *   full anchor   `(?mi)<a.+?href\=\"(.+?)\".*?\>(.*?)\<\/a\>`
 * A way for a pattern to match at `i` fixes where each run stops: `href="`
 * at `h`, the closing quote at `q`, the `>` at `g` and, for a full anchor,
 * `</a>` at `e`. Leftmost-first matching tries the ways in lexicographic
 * order of these positions, because every run is lazy and so tries fewer
 * characters first, and reports the first way that succeeds. A way that
 * stops every run at or before every other way does is that first way.
 */
module AnchorWays {
  import opened Scan
  import opened Anchors

  /** No newline in `s[a..b]`: a `.` run can cross it. */
  predicate Inline(s: string, a: nat, b: nat) {
    a <= b <= |s| && forall k :: a <= k < b ==> s[k] != '\n'
  }

  /** The run `<a.+?` stops where `href="` starts at `h`; it holds at least one character. */
  predicate HrefWay(s: string, i: nat, h: nat) {
    CiAt(s, i, Lead) && i + 3 <= h && Inline(s, i + 2, h) && CiAt(s, h, HrefAttr)
  }

  /** The href run `(.+?)` from `u` stops at a quote at `q`; it holds at least one character. */
  predicate QuoteWay(s: string, u: nat, q: nat) {
    u < q < |s| && Inline(s, u, q) && s[q] == '"'
  }

  /** The run `.*?` after the quote at `q` stops at a `>` at `g`. */
  predicate EndWay(s: string, q: nat, g: nat) {
    q < g < |s| && Inline(s, q + 1, g) && s[g] == '>'
  }

  /** Where the runs of the opening-tag pattern stop. */
  datatype TagChoice = TagChoice(h: nat, q: nat, g: nat)

  /** Where the runs of the full-anchor pattern stop. */
  datatype FullChoice = FullChoice(h: nat, q: nat, g: nat, e: nat)

  /** The choice `w` makes the opening-tag pattern match at `i`. */
  predicate TagWay(s: string, i: nat, w: TagChoice) {
    HrefWay(s, i, w.h) && QuoteWay(s, w.h + 6, w.q) && EndWay(s, w.q, w.g)
  }

  /** The choice `w` makes the full-anchor pattern match at `i`: the text run `(.*?)` stops where `</a>` starts. */
  predicate FullWay(s: string, i: nat, w: FullChoice) {
    && TagWay(s, i, TagChoice(w.h, w.q, w.g))
    && w.g < w.e && Inline(s, w.g + 1, w.e) && CiAt(s, w.e, Close)
  }

  /** Every way the opening-tag pattern can match at `i`. */
  ghost function TagWays(s: string, i: nat): (r: iset<TagChoice>) {
    iset w | TagWay(s, i, w)
  }

  /** Every way the full-anchor pattern can match at `i`. */
  ghost function FullWays(s: string, i: nat): (r: iset<FullChoice>) {
    iset w | FullWay(s, i, w)
  }

  /** `a` stops every run at or before `b` does. */
  predicate TagBefore(a: TagChoice, b: TagChoice) {
    a.h <= b.h && a.q <= b.q && a.g <= b.g
  }

  /** `a` stops every run at or before `b` does. */
  predicate FullBefore(a: FullChoice, b: FullChoice) {
    a.h <= b.h && a.q <= b.q && a.g <= b.g && a.e <= b.e
  }

  /** `w` is a way for the opening tag at or before every way. */
  ghost predicate LeastTag(s: string, i: nat, w: TagChoice) {
    w in TagWays(s, i) && forall w' :: w' in TagWays(s, i) ==> TagBefore(w, w')
  }

  /** `w` is a way for the full anchor at or before every way. */
  ghost predicate LeastFull(s: string, i: nat, w: FullChoice) {
    w in FullWays(s, i) && forall w' :: w' in FullWays(s, i) ==> FullBefore(w, w')
  }

  /** `m` is what leftmost-first matching of the opening-tag pattern reports at `i`. */
  ghost predicate PreferredTag(s: string, i: nat, m: Match) {
    exists w :: LeastTag(s, i, w) && m == Match(s[w.h + 6..w.q], "", w.g + 1)
  }

  /** `m` is what leftmost-first matching of the full-anchor pattern reports at `i`. */
  ghost predicate PreferredFull(s: string, i: nat, m: Match) {
    exists w :: LeastFull(s, i, w) && m == Match(s[w.h + 6..w.q], s[w.g + 1..w.e], w.e + 4)
  }

  /** The reference meaning of either pattern at `i`. */
  ghost predicate Preferred(s: string, i: nat, rule: Rule, m: Match) {
    if rule == OpenTag then PreferredTag(s, i, m) else PreferredFull(s, i, m)
  }

  /** Some way makes `rule` match at `i`. */
  ghost predicate Matchable(s: string, i: nat, rule: Rule) {
    if rule == OpenTag then exists w :: w in TagWays(s, i) else exists w :: w in FullWays(s, i)
  }
}

/** The scanners of the anchor patterns take exactly the ways leftmost-first matching prefers. */
module AnchorSpec {
  import opened Wrappers
  import opened Scan
  import opened Anchors
  import opened AnchorWays

  /** Index form and slice form of "no newline" agree. */
  lemma InlineSlice(s: string, a: nat, b: nat)
    requires a <= b <= |s|
    ensures Inline(s, a, b) <==> '\n' !in s[a..b]
  {
    if '\n' in s[a..b] {
      var j :| 0 <= j < b - a && s[a..b][j] == '\n';
      assert s[a + j] == '\n';
    }
  }

  /**
   * NextCi finds the least reachable occurrence: what it finds is reachable,
   * it lies at or before every reachable occurrence, and it finds nothing only
   * when no occurrence is reachable.
   */
  lemma NextCiLeast(s: string, from: nat, pat: string)
    requires |pat| > 0
    ensures NextCi(s, from, pat).Some? ==>
      Inline(s, from, NextCi(s, from, pat).value) && CiAt(s, NextCi(s, from, pat).value, pat)
    ensures forall x :: Inline(s, from, x) && CiAt(s, x, pat) ==>
      NextCi(s, from, pat).Some? && NextCi(s, from, pat).value <= x
  {
    var r := NextCi(s, from, pat);
    NextCiFirst(s, from, pat);
    NextCiBound(s, from, pat);
    if r.Some? {
      InlineSlice(s, from, r.value);
    }
    forall x | Inline(s, from, x) && CiAt(s, x, pat)
      ensures r.Some? && r.value <= x
    {
      InlineSlice(s, from, x);
    }
  }

  /** Two adjacent newline-free stretches make one. */
  lemma InlineJoin(s: string, a: nat, b: nat, c: nat)
    requires Inline(s, a, b) && Inline(s, b, c)
    ensures Inline(s, a, c)
  { }

  /** `href="` holds no newline, so a run may continue through it. */
  lemma HrefAttrInline(s: string, h: nat)
    requires CiAt(s, h, HrefAttr)
    ensures Inline(s, h, h + 6)
  {
    forall k | h <= k < h + 6
      ensures s[k] != '\n'
    {
      assert Lower(s[k]) == HrefAttr[k - h];
    }
  }

  /** A single quote or `>` as a one-character literal. */
  lemma SymbolAt(s: string, x: nat, pat: string)
    requires pat == Quote || pat == TagEnd
    requires x < |s|
    ensures CiAt(s, x, pat) <==> s[x] == pat[0]
  {
    LowerOfSymbol(s[x], pat[0]);
    assert CiAt(s, x, pat) <==> Lower(s[x + 0]) == pat[0];
  }

  /** HrefStart takes the least way for `<a.+?href\=\"`, and fails only when there is none. */
  lemma HrefStartLeast(s: string, i: nat)
    ensures HrefStart(s, i).Some? ==> HrefWay(s, i, HrefStart(s, i).value - 6)
    ensures forall h: nat :: HrefWay(s, i, h) ==>
      HrefStart(s, i).Some? && HrefStart(s, i).value - 6 <= h
  {
    if CiAt(s, i, Lead) && i + 2 < |s| && s[i + 2] != '\n' {
      NextCiLeast(s, i + 3, HrefAttr);
      if HrefStart(s, i).Some? {
        InlineJoin(s, i + 2, i + 3, HrefStart(s, i).value - 6);
      }
    }
  }

  /** HrefEnd takes the least way for `(.+?)\"`, and fails only when there is none. */
  lemma HrefEndLeast(s: string, u: nat)
    ensures HrefEnd(s, u).Some? ==> QuoteWay(s, u, HrefEnd(s, u).value)
    ensures forall q: nat :: QuoteWay(s, u, q) ==> HrefEnd(s, u).Some? && HrefEnd(s, u).value <= q
  {
    if u < |s| && s[u] != '\n' {
      NextCiLeast(s, u + 1, Quote);
      if HrefEnd(s, u).Some? {
        InlineJoin(s, u, u + 1, HrefEnd(s, u).value);
      }
      forall q: nat | QuoteWay(s, u, q)
        ensures HrefEnd(s, u).Some? && HrefEnd(s, u).value <= q
      {
        SymbolAt(s, q, Quote);
      }
    }
  }

  /** TagClose takes the least way for `.*?\>`, and fails only when there is none. */
  lemma TagCloseLeast(s: string, q: nat)
    ensures TagClose(s, q).Some? ==> EndWay(s, q, TagClose(s, q).value - 1)
    ensures forall g: nat :: EndWay(s, q, g) ==> TagClose(s, q).Some? && TagClose(s, q).value - 1 <= g
  {
    NextCiLeast(s, q + 1, TagEnd);
    forall g: nat | EndWay(s, q, g)
      ensures TagClose(s, q).Some? && TagClose(s, q).value - 1 <= g
    {
      SymbolAt(s, g, TagEnd);
    }
  }

  /** A way for the opening tag keeps the whole tag, up to its `>`, on one line. */
  lemma TagWayInline(s: string, i: nat, w: TagChoice)
    requires TagWay(s, i, w)
    ensures Inline(s, i + 2, w.g + 1)
  {
    HrefAttrInline(s, w.h);
    InlineJoin(s, i + 2, w.h, w.h + 6);
    InlineJoin(s, i + 2, w.h + 6, w.q);
    InlineJoin(s, i + 2, w.q, w.q + 1);
    InlineJoin(s, i + 2, w.q + 1, w.g);
    InlineJoin(s, i + 2, w.g, w.g + 1);
  }

  /** The choice the opening-tag scanner makes at `i`. */
  ghost function ScanTag(s: string, i: nat): (r: TagChoice)
    requires OpenTagAt(s, i).Some?
  {
    var t := OpenTagAt(s, i).value;
    TagChoice(t.hrefStart - 6, t.hrefEnd, t.end - 1)
  }

  /** The choice the full-anchor scanner makes at `i`. */
  ghost function ScanFull(s: string, i: nat): (r: FullChoice)
    requires MatchAt(s, i, FullAnchor).Some?
  {
    var t := OpenTagAt(s, i).value;
    FullChoice(t.hrefStart - 6, t.hrefEnd, t.end - 1, MatchAt(s, i, FullAnchor).value.end - 4)
  }

  /** The opening-tag scanner's choice is a way. */
  lemma ScanTagWay(s: string, i: nat)
    requires OpenTagAt(s, i).Some?
    ensures ScanTag(s, i) in TagWays(s, i)
  {
    HrefStartLeast(s, i);
    var u := HrefStart(s, i).value;
    HrefEndLeast(s, u);
    TagCloseLeast(s, HrefEnd(s, u).value);
  }

  /** From any way for the opening tag, each scanner step succeeds at or before it. */
  lemma LeastTagFromWay(s: string, i: nat, w: TagChoice)
    requires w in TagWays(s, i)
    ensures OpenTagAt(s, i).Some? && TagBefore(ScanTag(s, i), w)
  {
    assert TagWay(s, i, w);
    TagWayInline(s, i, w);
    HrefStartLeast(s, i);
    var u := HrefStart(s, i).value;
    assert QuoteWay(s, u, w.q) by {
      HrefAttrInline(s, w.h);
      InlineJoin(s, i + 2, w.h, w.h + 6);
      InlineJoin(s, i + 2, w.h + 6, w.q);
    }
    HrefEndLeast(s, u);
    var q0 := HrefEnd(s, u).value;
    assert EndWay(s, q0, w.g);
    TagCloseLeast(s, q0);
  }

  /**
   * OpenTagAt takes the least way for the opening-tag pattern: its choice is
   * a way, it stops every run at or before every way does, and it fails only
   * when there is no way.
   */
  lemma OpenTagAtLeast(s: string, i: nat)
    ensures OpenTagAt(s, i).Some? ==> ScanTag(s, i) in TagWays(s, i)
    ensures forall w :: w in TagWays(s, i) ==> OpenTagAt(s, i).Some? && TagBefore(ScanTag(s, i), w)
  {
    if OpenTagAt(s, i).Some? {
      ScanTagWay(s, i);
    }
    forall w | w in TagWays(s, i)
      ensures OpenTagAt(s, i).Some? && TagBefore(ScanTag(s, i), w)
    {
      LeastTagFromWay(s, i, w);
    }
  }

  /** The least way for the opening tag is the scanner's choice, and the scanner's choice is least. */
  lemma LeastTagIsScan(s: string, i: nat)
    ensures forall w :: LeastTag(s, i, w) <==> OpenTagAt(s, i).Some? && w == ScanTag(s, i)
  {
    OpenTagAtLeast(s, i);
  }

  /** What the opening-tag match reports, read off the scanner's choice. */
  lemma ScanTagMatch(s: string, i: nat)
    requires OpenTagAt(s, i).Some?
    ensures var w := ScanTag(s, i);
      MatchAt(s, i, OpenTag) == Some(Match(s[w.h + 6..w.q], "", w.g + 1))
  { }

  /**
   * Scanner and reference agree on the opening-tag pattern: the scanner
   * reports exactly the preferred match, and reports none exactly when the
   * pattern has no way to match at `i`.
   */
  lemma OpenTagMatchPreferred(s: string, i: nat)
    ensures forall m :: MatchAt(s, i, OpenTag) == Some(m) <==> PreferredTag(s, i, m)
    ensures MatchAt(s, i, OpenTag).None? <==> forall w :: w !in TagWays(s, i)
  {
    LeastTagIsScan(s, i);
    OpenTagAtLeast(s, i);
    if OpenTagAt(s, i).Some? {
      ScanTagMatch(s, i);
      assert LeastTag(s, i, ScanTag(s, i));
    }
  }

  /** The full-anchor scanner is the opening-tag scanner followed by the search for `</a>`. */
  lemma FullMatchShape(s: string, i: nat)
    ensures MatchAt(s, i, FullAnchor).Some? <==>
      OpenTagAt(s, i).Some? && NextCi(s, OpenTagAt(s, i).value.end, Close).Some?
    ensures MatchAt(s, i, FullAnchor).Some? ==>
      var t := OpenTagAt(s, i).value;
      var e := NextCi(s, t.end, Close).value;
      && e + 4 <= |s|
      && MatchAt(s, i, FullAnchor).value == Match(s[t.hrefStart..t.hrefEnd], s[t.end..e], e + 4)
  {
    if OpenTagAt(s, i).Some? {
      NextCiFound(s, OpenTagAt(s, i).value.end, Close);
    }
  }

  /** The full-anchor scanner's choice is a way. */
  lemma ScanFullWay(s: string, i: nat)
    requires MatchAt(s, i, FullAnchor).Some?
    ensures ScanFull(s, i) in FullWays(s, i)
  {
    FullMatchShape(s, i);
    ScanTagWay(s, i);
    var t := OpenTagAt(s, i).value;
    NextCiLeast(s, t.end, Close);
    var w := ScanFull(s, i);
    assert TagChoice(w.h, w.q, w.g) == ScanTag(s, i);
  }

  /** From any way for the full anchor, the opening tag and the `</a>` search succeed at or before it. */
  lemma LeastFullFromWay(s: string, i: nat, w: FullChoice)
    requires w in FullWays(s, i)
    ensures MatchAt(s, i, FullAnchor).Some? && FullBefore(ScanFull(s, i), w)
  {
    var tw := TagChoice(w.h, w.q, w.g);
    assert FullWay(s, i, w);
    assert tw in TagWays(s, i);
    LeastTagFromWay(s, i, tw);
    TagWayInline(s, i, tw);
    var t := OpenTagAt(s, i).value;
    InlineJoin(s, t.end, w.g + 1, w.e);
    NextCiLeast(s, t.end, Close);
    FullMatchShape(s, i);
  }

  /**
   * The full-anchor scanner takes the least way: its choice is a way, it
   * stops every run at or before every way does, and it fails only when
   * there is no way.
   */
  lemma FullAnchorLeast(s: string, i: nat)
    ensures MatchAt(s, i, FullAnchor).Some? ==> ScanFull(s, i) in FullWays(s, i)
    ensures forall w :: w in FullWays(s, i) ==>
      MatchAt(s, i, FullAnchor).Some? && FullBefore(ScanFull(s, i), w)
  {
    if MatchAt(s, i, FullAnchor).Some? {
      ScanFullWay(s, i);
    }
    forall w | w in FullWays(s, i)
      ensures MatchAt(s, i, FullAnchor).Some? && FullBefore(ScanFull(s, i), w)
    {
      LeastFullFromWay(s, i, w);
    }
  }

  /** The least way for the full anchor is the scanner's choice, and the scanner's choice is least. */
  lemma LeastFullIsScan(s: string, i: nat)
    ensures forall w :: LeastFull(s, i, w) <==> MatchAt(s, i, FullAnchor).Some? && w == ScanFull(s, i)
  {
    FullAnchorLeast(s, i);
  }

  /** What the full-anchor match reports, read off the scanner's choice. */
  lemma ScanFullMatch(s: string, i: nat)
    requires MatchAt(s, i, FullAnchor).Some?
    ensures var w := ScanFull(s, i);
      && w.e + 4 <= |s|
      && MatchAt(s, i, FullAnchor) == Some(Match(s[w.h + 6..w.q], s[w.g + 1..w.e], w.e + 4))
  {
    FullMatchShape(s, i);
    var t := OpenTagAt(s, i).value;
    var e := NextCi(s, t.end, Close).value;
    assert ScanFull(s, i) == FullChoice(t.hrefStart - 6, t.hrefEnd, t.end - 1, e);
  }

  /**
   * Scanner and reference agree on the full-anchor pattern: the scanner
   * reports exactly the preferred match, and reports none exactly when the
   * pattern has no way to match at `i`.
   */
  lemma FullMatchPreferred(s: string, i: nat)
    ensures forall m :: MatchAt(s, i, FullAnchor) == Some(m) <==> PreferredFull(s, i, m)
    ensures MatchAt(s, i, FullAnchor).None? <==> forall w :: w !in FullWays(s, i)
  {
    LeastFullIsScan(s, i);
    FullAnchorLeast(s, i);
    if MatchAt(s, i, FullAnchor).Some? {
      ScanFullMatch(s, i);
      assert LeastFull(s, i, ScanFull(s, i));
    }
  }

  /** Either pattern: the scanner's match at `i` is exactly the leftmost-first preferred one. */
  lemma MatchAtIsPreferred(s: string, i: nat, rule: Rule)
    ensures forall m :: MatchAt(s, i, rule) == Some(m) <==> Preferred(s, i, rule, m)
  {
    if rule == OpenTag {
      OpenTagMatchPreferred(s, i);
    } else {
      FullMatchPreferred(s, i);
    }
  }

  /** The scanner finds a match at `i` exactly when some way makes the pattern match there. */
  lemma MatchAtIffMatchable(s: string, i: nat, rule: Rule)
    ensures MatchAt(s, i, rule).Some? <==> Matchable(s, i, rule)
  {
    if rule == OpenTag {
      OpenTagMatchPreferred(s, i);
    } else {
      FullMatchPreferred(s, i);
    }
  }
}
