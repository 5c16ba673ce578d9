/**
 * What `FindAllString` over the anchor patterns hands back: the leftmost,
 * non-overlapping occurrences that the pattern's meaning in `AnchorWays`
 * picks out. Every occurrence is a match on its own, so rewriting it with
 * `"$1"` yields its href, and a page whose only anchor is canonical yields
 * that one anchor.
 */
module Occurrences {
  import opened Wrappers
  import opened Scan
  import opened Anchors
  import opened AnchorFacts
  import opened AnchorWays
  import opened AnchorSpec

  /** The href stage reads nothing past the href's first character. */
  lemma HrefStartLocal(s: string, b: nat)
    requires b <= |s| && HrefStart(s, 0).Some? && HrefStart(s, 0).value < b
    ensures HrefStart(s[..b], 0) == HrefStart(s, 0)
  {
    var u := HrefStart(s, 0).value;
    var h := NextCi(s, 3, HrefAttr).value;
    NextCiFound(s, 3, HrefAttr);
    assert s[0..b] == s[..b];
    NextCiWindow(s, 0, b, 3, h, HrefAttr);
    CiAtWindow(s, 0, b, 0, Lead);
    assert s[..b][2] == s[2];
  }

  /** The href ends where it did as long as its closing quote is kept. */
  lemma HrefEndLocal(s: string, b: nat, u: nat)
    requires b <= |s| && HrefEnd(s, u).Some? && HrefEnd(s, u).value < b
    ensures HrefEnd(s[..b], u) == HrefEnd(s, u)
  {
    var q := HrefEnd(s, u).value;
    NextCiFound(s, u + 1, Quote);
    assert s[0..b] == s[..b];
    NextCiWindow(s, 0, b, u + 1, q, Quote);
    assert s[..b][u] == s[u];
  }

  /** The tag ends where it did as long as its `>` is kept. */
  lemma TagCloseLocal(s: string, b: nat, q: nat)
    requires b <= |s| && TagClose(s, q).Some? && TagClose(s, q).value <= b
    ensures TagClose(s[..b], q) == TagClose(s, q)
  {
    var g := NextCi(s, q + 1, TagEnd).value;
    NextCiFound(s, q + 1, TagEnd);
    assert s[0..b] == s[..b];
    NextCiWindow(s, 0, b, q + 1, g, TagEnd);
  }

  /** The opening tag is found the same way in any prefix that keeps it. */
  lemma OpenTagLocal(s: string, b: nat)
    requires b <= |s| && OpenTagAt(s, 0).Some? && OpenTagAt(s, 0).value.end <= b
    ensures OpenTagAt(s[..b], 0) == OpenTagAt(s, 0)
  {
    var t := OpenTagAt(s, 0).value;
    HrefStartLocal(s, b);
    HrefEndLocal(s, b, t.hrefStart);
    TagCloseLocal(s, b, t.hrefEnd);
  }

  /** The closing `</a>` is found the same way in any prefix that keeps it. */
  lemma CloseLocal(s: string, b: nat, e: nat)
    requires b <= |s| && NextCi(s, e, Close).Some? && NextCi(s, e, Close).value + 4 <= b
    ensures NextCi(s[..b], e, Close) == NextCi(s, e, Close)
  {
    assert s[0..b] == s[..b];
    NextCiWindow(s, 0, b, e, NextCi(s, e, Close).value, Close);
  }

  /** A match is a match of the text it covers: the patterns look no further. */
  lemma MatchLocal(s: string, rule: Rule)
    requires MatchAt(s, 0, rule).Some?
    ensures MatchAt(s[..MatchAt(s, 0, rule).value.end], 0, rule) == MatchAt(s, 0, rule)
  {
    var b := MatchAt(s, 0, rule).value.end;
    var t := OpenTagAt(s, 0).value;
    OpenTagLocal(s, b);
    SliceOfSlice(s, 0, b, t.hrefStart, t.hrefEnd);
    if rule == FullAnchor {
      FullMatchLocal(s, b, t);
    }
  }

  /** The closing stage of the full-anchor pattern, inside the prefix it ends. */
  lemma FullMatchLocal(s: string, b: nat, t: Tag)
    requires MatchAt(s, 0, FullAnchor).Some? && b == MatchAt(s, 0, FullAnchor).value.end
    requires OpenTagAt(s, 0) == Some(t) && OpenTagAt(s[..b], 0) == Some(t)
    requires s[..b][t.hrefStart..t.hrefEnd] == s[t.hrefStart..t.hrefEnd]
    ensures MatchAt(s[..b], 0, FullAnchor) == MatchAt(s, 0, FullAnchor)
  {
    var e := NextCi(s, t.end, Close).value;
    var u := s[..b];
    NextCiBound(s, t.end, Close);
    CloseLocal(s, b, t.end);
    SliceOfSlice(s, 0, b, t.end, e);
    assert s[0..b] == u;
    SameFullMatch(s, u, t, e);
  }

  /** Two strings with the same opening tag, closing tag and captures give the same full-anchor match. */
  lemma SameFullMatch(s: string, u: string, t: Tag, e: nat)
    requires OpenTagAt(s, 0) == Some(t) && OpenTagAt(u, 0) == Some(t)
    requires NextCi(s, t.end, Close) == Some(e) && NextCi(u, t.end, Close) == Some(e)
    requires e + 4 <= |s| && e + 4 <= |u|
    requires u[t.hrefStart..t.hrefEnd] == s[t.hrefStart..t.hrefEnd] && u[t.end..e] == s[t.end..e]
    ensures MatchAt(u, 0, FullAnchor) == MatchAt(s, 0, FullAnchor)
  {
    MatchFromTag(s, t.hrefStart, t.hrefEnd, t.end, e);
    MatchFromTag(u, t.hrefStart, t.hrefEnd, t.end, e);
  }

  /** An occurrence that matches itself completely, with the captures it reports. */
  predicate SelfMatching(o: Occurrence, rule: Rule) {
    MatchAt(o.matched, 0, rule) == Some(Match(o.href, o.text, |o.matched|))
  }

  /** A self-matching occurrence in front of self-matching ones. */
  lemma SelfMatchingCons(o: Occurrence, rest: seq<Occurrence>, rule: Rule)
    requires SelfMatching(o, rule)
    requires forall k :: 0 <= k < |rest| ==> SelfMatching(rest[k], rule)
    ensures forall k :: 0 <= k < |[o] + rest| ==> SelfMatching(([o] + rest)[k], rule)
  {
    forall k | 0 <= k < |[o] + rest|
      ensures SelfMatching(([o] + rest)[k], rule)
    {
      if k > 0 {
        assert ([o] + rest)[k] == rest[k - 1];
      }
    }
  }

  /** Every occurrence found is a complete match of its own text. */
  lemma {:induction false} OccurrencesSelfMatch(s: string, rule: Rule)
    ensures forall k :: 0 <= k < |FindOccurrences(s, rule)| ==> SelfMatching(FindOccurrences(s, rule)[k], rule)
    decreases |s|
  {
    if |s| > 0 {
      match MatchAt(s, 0, rule)
      case Some(m) =>
        var o := Occurrence(s[..m.end], m.href, m.text);
        var rest := FindOccurrences(s[m.end..], rule);
        MatchLocal(s, rule);
        OccurrencesSelfMatch(s[m.end..], rule);
        FindFirst(s, rule, m);
        SelfMatchingCons(o, rest, rule);
      case None =>
        OccurrencesSelfMatch(s[1..], rule);
        FindSkip(s, rule);
    }
  }

  /** Rewriting an occurrence with `"$1"` yields its href. */
  lemma HrefOfOccurrence(o: Occurrence, rule: Rule)
    requires SelfMatching(o, rule)
    ensures ReplaceAll(o.matched, rule, HrefOnly) == o.href
  {
    assert o.matched[|o.matched|..] == "";
  }

  /** Safe text in front contributes no occurrences. */
  lemma {:induction false} FindPeel(x: string, y: string, rule: Rule)
    requires SafeText(x)
    ensures FindOccurrences(x + y, rule) == FindOccurrences(y, rule)
    decreases |x|
  {
    if |x| > 0 {
      SafeHeadNoLead(x, y);
      NoLeadNoMatch(x + y, rule);
      assert (x + y)[1..] == x[1..] + y;
      FindPeel(x[1..], y, rule);
    } else {
      assert x + y == y;
    }
  }

  /** A match at the front is the first occurrence, and the search resumes at its end. */
  lemma FindFirst(s: string, rule: Rule, m: Match)
    requires MatchAt(s, 0, rule) == Some(m)
    ensures FindOccurrences(s, rule) == [Occurrence(s[..m.end], m.href, m.text)] + FindOccurrences(s[m.end..], rule)
  {
  }

  /** Without a match at the front, the search moves on by one character. */
  lemma FindSkip(s: string, rule: Rule)
    requires |s| > 0 && MatchAt(s, 0, rule).None?
    ensures FindOccurrences(s, rule) == FindOccurrences(s[1..], rule)
  {
  }

  /** A canonical anchor followed by safe text is the only occurrence. */
  lemma AnchorOccurrence(h: string, t: string, post: string)
    requires SafeText(post) && PlainHref(h) && PlainText(t)
    ensures FindOccurrences(AnchorText(h, t) + post, FullAnchor) == [Occurrence(AnchorText(h, t), h, t)]
  {
    var a := AnchorText(h, t);
    var s := a + post;
    assert FindOccurrences(s, FullAnchor) == [Occurrence(a, h, t)] + FindOccurrences(post, FullAnchor) by {
      CanonicalFullMatch(h, t, post);
      FindFirst(s, FullAnchor, Match(h, t, |a|));
      assert s[..|a|] == a;
      assert s[|a|..] == post;
    }
    assert FindOccurrences(post, FullAnchor) == [] by {
      FindPeel(post, "", FullAnchor);
      assert post + "" == post;
    }
  }

  /**
   * A page whose only anchor is one canonical anchor, with safe text around
   * it, holds exactly that one occurrence of the full-anchor pattern.
   */
  lemma SingleAnchor(pre: string, h: string, t: string, post: string)
    requires SafeText(pre) && SafeText(post) && PlainHref(h) && PlainText(t)
    ensures FindOccurrences(pre + AnchorText(h, t) + post, FullAnchor)
      == [Occurrence(AnchorText(h, t), h, t)]
  {
    var a := AnchorText(h, t);
    AnchorOccurrence(h, t, post);
    PeelThenFind(pre, a, post, [Occurrence(a, h, t)]);
  }

  /** Safe text in front of `a + post` leaves its occurrences as they are. */
  lemma PeelThenFind(pre: string, a: string, post: string, occ: seq<Occurrence>)
    requires SafeText(pre) && FindOccurrences(a + post, FullAnchor) == occ
    ensures FindOccurrences(pre + a + post, FullAnchor) == occ
  {
    Assoc(pre, a, post);
    FindPeel(pre, a + post, FullAnchor);
  }

  /**
   * `o` is what leftmost-first matching reports at the front of `t`: its
   * text is a nonempty prefix of `t` and it carries the captures of the
   * preferred way.
   */
  ghost predicate ReportedAt(t: string, rule: Rule, o: Occurrence) {
    && 0 < |o.matched| <= |t|
    && o.matched == t[..|o.matched|]
    && Preferred(t, 0, rule, Match(o.href, o.text, |o.matched|))
  }

  /** Everything leftmost-first matching can report at the front of `t`. */
  ghost function Reported(t: string, rule: Rule): (r: iset<Occurrence>) {
    iset o | ReportedAt(t, rule, o)
  }

  /** The texts at whose front the pattern can match. */
  ghost function MatchableTexts(rule: Rule): (r: iset<string>) {
    iset t | Matchable(t, 0, rule)
  }

  /**
   * Reference meaning of `FindAllSubmatch(s, -1)`, read left to right:
   * where some way makes the pattern match at the front, the next
   * occurrence is the preferred match there and the reading resumes where
   * it ends, so occurrences never overlap; elsewhere the reading moves on
   * by one character, so no occurrence is skipped.
   */
  ghost predicate Leftmost(s: string, rule: Rule, occ: seq<Occurrence>)
    decreases |s|
  {
    if |s| == 0 then occ == []
    else if s in MatchableTexts(rule) then
      && occ != []
      && occ[0] in Reported(s, rule)
      && 0 < |occ[0].matched| <= |s|
      && Leftmost(s[|occ[0].matched|..], rule, occ[1..])
    else Leftmost(s[1..], rule, occ)
  }

  /** The scanner reports `o` at the front of `t` exactly when the reference does. */
  lemma ReportedIffMatch(t: string, rule: Rule, o: Occurrence)
    ensures o in Reported(t, rule) <==>
      MatchAt(t, 0, rule) == Some(Match(o.href, o.text, |o.matched|)) && o.matched == t[..|o.matched|]
  {
    MatchAtIsPreferred(t, 0, rule);
  }

  /** At most one occurrence is reported at the front of `t`. */
  lemma ReportedUnique(t: string, rule: Rule, x: Occurrence, y: Occurrence)
    requires x in Reported(t, rule) && y in Reported(t, rule)
    ensures x == y
  {
    ReportedIffMatch(t, rule, x);
    ReportedIffMatch(t, rule, y);
  }

  /** The scanner's occurrences meet the reference. */
  lemma {:induction false} FindLeftmost(s: string, rule: Rule)
    ensures Leftmost(s, rule, FindOccurrences(s, rule))
    decreases |s|
  {
    if |s| > 0 {
      MatchAtIffMatchable(s, 0, rule);
      match MatchAt(s, 0, rule)
      case Some(m) =>
        var o := Occurrence(s[..m.end], m.href, m.text);
        var rest := FindOccurrences(s[m.end..], rule);
        FindLeftmost(s[m.end..], rule);
        FindFirst(s, rule, m);
        ReportedIffMatch(s, rule, o);
        assert ([o] + rest)[1..] == rest;
      case None =>
        FindLeftmost(s[1..], rule);
        FindSkip(s, rule);
    }
  }

  /** The reference determines the occurrences: two lists that meet it agree. */
  lemma {:induction false} LeftmostUnique(s: string, rule: Rule, a: seq<Occurrence>, b: seq<Occurrence>)
    requires Leftmost(s, rule, a) && Leftmost(s, rule, b)
    ensures a == b
    decreases |s|
  {
    if |s| > 0 {
      if s in MatchableTexts(rule) {
        ReportedUnique(s, rule, a[0], b[0]);
        LeftmostUnique(s[|a[0].matched|..], rule, a[1..], b[1..]);
        assert a == [a[0]] + a[1..];
        assert b == [b[0]] + b[1..];
      } else {
        LeftmostUnique(s[1..], rule, a, b);
      }
    }
  }

  /** FindOccurrences returns exactly the list the reference describes, and no other list meets it. */
  lemma FindIsLeftmost(s: string, rule: Rule)
    ensures forall occ :: Leftmost(s, rule, occ) <==> occ == FindOccurrences(s, rule)
  {
    FindLeftmost(s, rule);
    forall occ | Leftmost(s, rule, occ)
      ensures occ == FindOccurrences(s, rule)
    {
      LeftmostUnique(s, rule, occ, FindOccurrences(s, rule));
    }
  }

  /** The matched text of each occurrence. */
  function Texts(occ: seq<Occurrence>): (r: seq<string>) {
    seq(|occ|, k requires 0 <= k < |occ| => occ[k].matched)
  }

  /** The pattern can match somewhere in `s` exactly when the scanner finds a match there. */
  lemma NowhereMatchable(s: string, rule: Rule)
    ensures (forall k :: 0 <= k < |s| ==> !Matchable(s[k..], 0, rule)) <==> forall k :: 0 <= k < |s| ==> MatchAt(s[k..], 0, rule).None?
  {
    forall k | 0 <= k < |s| {
      MatchAtIffMatchable(s[k..], 0, rule);
    }
  }

  /**
   * `FindAllString(s, -1)`: the texts of the leftmost occurrences, each of
   * which the pattern matches whole; empty exactly when the pattern cannot
   * match anywhere in `s`.
   */
  function FindAll(s: string, rule: Rule): (r: seq<string>)
    ensures forall occ :: Leftmost(s, rule, occ) ==> r == Texts(occ)
    ensures forall k :: 0 <= k < |r| ==> MatchAt(r[k], 0, rule).Some? && MatchAt(r[k], 0, rule).value.end == |r[k]|
    ensures r == [] <==> forall k :: 0 <= k < |s| ==> !Matchable(s[k..], 0, rule)
  {
    FindIsLeftmost(s, rule);
    OccurrencesSelfMatch(s, rule);
    NowhereMatchable(s, rule);
    Texts(FindOccurrences(s, rule))
  }

  /**
   * Reference meaning of `ReplaceAllString(s, tmpl)`, read left to right
   * like `Leftmost`: where the pattern can match at the front, the output
   * starts with the expansion of the occurrence reported there and goes on
   * with the rewrite of what follows that occurrence; elsewhere the output
   * copies one character and goes on with the rest.
   */
  ghost predicate RewriteOf(s: string, rule: Rule, tmpl: Template, out: string)
    decreases |s|
  {
    if |s| == 0 then out == ""
    else if s in MatchableTexts(rule) then
      forall o :: o in Reported(s, rule) && 0 < |o.matched| <= |s| ==>
        var e := Expand(tmpl, Match(o.href, o.text, |o.matched|));
        && |e| <= |out| && out[..|e|] == e
        && RewriteOf(s[|o.matched|..], rule, tmpl, out[|e|..])
    else |out| > 0 && out[0] == s[0] && RewriteOf(s[1..], rule, tmpl, out[1..])
  }

  /** A match at the front: its expansion followed by a rewrite of the rest meets the reference. */
  lemma RewriteMatchStep(s: string, rule: Rule, tmpl: Template, m: Match, rest: string)
    requires MatchAt(s, 0, rule) == Some(m) && RewriteOf(s[m.end..], rule, tmpl, rest)
    ensures RewriteOf(s, rule, tmpl, Expand(tmpl, m) + rest)
  {
    var out := Expand(tmpl, m) + rest;
    var e := Expand(tmpl, m);
    MatchAtIffMatchable(s, 0, rule);
    assert out[..|e|] == e && out[|e|..] == rest;
    forall o | o in Reported(s, rule) && 0 < |o.matched| <= |s|
      ensures
        var e' := Expand(tmpl, Match(o.href, o.text, |o.matched|));
        && |e'| <= |out| && out[..|e'|] == e'
        && RewriteOf(s[|o.matched|..], rule, tmpl, out[|e'|..])
    {
      ReportedIffMatch(s, rule, o);
    }
  }

  /** No match at the front: the first character followed by a rewrite of the rest meets the reference. */
  lemma RewriteCopyStep(s: string, rule: Rule, tmpl: Template, rest: string)
    requires |s| > 0 && MatchAt(s, 0, rule).None? && RewriteOf(s[1..], rule, tmpl, rest)
    ensures RewriteOf(s, rule, tmpl, [s[0]] + rest)
  {
    MatchAtIffMatchable(s, 0, rule);
    assert ([s[0]] + rest)[1..] == rest;
  }

  /** The scanner's rewrite meets the reference. */
  lemma {:induction false} ReplaceRewrites(s: string, rule: Rule, tmpl: Template)
    ensures RewriteOf(s, rule, tmpl, ReplaceAll(s, rule, tmpl))
    decreases |s|
  {
    if |s| > 0 {
      match MatchAt(s, 0, rule)
      case Some(m) =>
        ReplaceRewrites(s[m.end..], rule, tmpl);
        RewriteMatchStep(s, rule, tmpl, m, ReplaceAll(s[m.end..], rule, tmpl));
      case None =>
        ReplaceRewrites(s[1..], rule, tmpl);
        RewriteCopyStep(s, rule, tmpl, ReplaceAll(s[1..], rule, tmpl));
    }
  }

  /** Where the pattern can match at the front, an output that meets the reference starts with the expansion of the scanner's match. */
  lemma RewriteFront(s: string, rule: Rule, tmpl: Template, out: string) returns (m: Match)
    requires |s| > 0 && s in MatchableTexts(rule) && RewriteOf(s, rule, tmpl, out)
    ensures MatchAt(s, 0, rule) == Some(m)
    ensures |Expand(tmpl, m)| <= |out| && out == Expand(tmpl, m) + out[|Expand(tmpl, m)|..]
    ensures RewriteOf(s[m.end..], rule, tmpl, out[|Expand(tmpl, m)|..])
  {
    MatchAtIffMatchable(s, 0, rule);
    m := MatchAt(s, 0, rule).value;
    var o := Occurrence(s[..m.end], m.href, m.text);
    ReportedIffMatch(s, rule, o);
    assert Match(o.href, o.text, |o.matched|) == m;
    var n := |Expand(tmpl, m)|;
    assert out == out[..n] + out[n..];
  }

  /** Where nothing can match at the front, an output that meets the reference copies the first character. */
  lemma RewriteCopy(s: string, rule: Rule, tmpl: Template, out: string)
    requires |s| > 0 && s !in MatchableTexts(rule) && RewriteOf(s, rule, tmpl, out)
    ensures out == [s[0]] + out[1..] && RewriteOf(s[1..], rule, tmpl, out[1..])
  {
  }

  /** The reference determines the output: two outputs that meet it agree. */
  lemma {:induction false} RewriteUnique(s: string, rule: Rule, tmpl: Template, a: string, b: string)
    requires RewriteOf(s, rule, tmpl, a) && RewriteOf(s, rule, tmpl, b)
    ensures a == b
    decreases |s|
  {
    if |s| > 0 {
      if s in MatchableTexts(rule) {
        var m := RewriteFront(s, rule, tmpl, a);
        var _ := RewriteFront(s, rule, tmpl, b);
        var n := |Expand(tmpl, m)|;
        RewriteUnique(s[m.end..], rule, tmpl, a[n..], b[n..]);
      } else {
        RewriteCopy(s, rule, tmpl, a);
        RewriteCopy(s, rule, tmpl, b);
        RewriteUnique(s[1..], rule, tmpl, a[1..], b[1..]);
      }
    }
  }

  /** `ReplaceAll` returns exactly the output the reference describes, and no other output meets it. */
  lemma ReplaceIsRewrite(s: string, rule: Rule, tmpl: Template)
    ensures forall out :: RewriteOf(s, rule, tmpl, out) <==> out == ReplaceAll(s, rule, tmpl)
  {
    ReplaceRewrites(s, rule, tmpl);
    forall out | RewriteOf(s, rule, tmpl, out)
      ensures out == ReplaceAll(s, rule, tmpl)
    {
      RewriteUnique(s, rule, tmpl, out, ReplaceAll(s, rule, tmpl));
    }
  }
}
