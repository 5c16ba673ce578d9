/**
 * `createParagraph` and the loop in `main` that prints each paragraph of the
 * sanitized article: the first paragraph match is unescaped, its HTML
 * emphasis tags become colour tokens, the paragraph tags are dropped, and
 * anchors become their text followed by a blue href.
 */
module Format {
  import opened Text
  import Paragraphs
  import Anchors
  import AnchorFacts

  /** The eight `strings.Replace` steps, in the order they run. */
  const TagPairs: seq<(string, string)> := [
    ("<em>", "<red>"), ("</em>", "</>"),
    ("<strong>", "<bold>"), ("</strong>", "</>"),
    ("<b>", "<bold>"), ("</b>", "</>"),
    ("<code>", "<green>"), ("</code>", "</>")
  ]

  /** The two steps that drop the paragraph tags, in the order they run. */
  const ParagraphPairs: seq<(string, string)> := [("<p>", ""), ("</p>", "")]

  /** Every pattern is non-empty, as `strings.Replace` needs for the model. */
  predicate Patterns(pairs: seq<(string, string)>) {
    forall k :: 0 <= k < |pairs| ==> |pairs[k].0| > 0
  }

  /** `strings.Replace(s, old, new, -1)` for each pair in turn. */
  function ReplaceEach(s: string, pairs: seq<(string, string)>): (r: string)
    requires Patterns(pairs)
    decreases |pairs|
  {
    if pairs == [] then s else ReplaceEach(ReplaceAll(s, pairs[0].0, pairs[0].1), pairs[1..])
  }

  /** The emphasis tags mapped to colour tokens (the eight case-sensitive replacements). */
  function MapTags(s: string): (r: string) {
    ReplaceEach(s, TagPairs)
  }

  /** The paragraph tags removed (case-sensitive, one pass each). */
  function StripParagraphTags(s: string): (r: string) {
    ReplaceEach(s, ParagraphPairs)
  }

  /** Full anchors first, with `"$2 (<blue>$1</>)"`, then any opening tag left, with `"<blue>$1</>"`. */
  function RewriteAnchors(s: string): (r: string) {
    Anchors.ReplaceAll(Anchors.ReplaceAll(s, Anchors.FullAnchor, Anchors.TextThenHref), Anchors.OpenTag, Anchors.BlueHref)
  }

  /** Everything `createParagraph` does to the paragraph it picked; `decode` is `html.UnescapeString`. */
  function Style(decode: string -> string, p: string): (r: string) {
    RewriteAnchors(StripParagraphTags(MapTags(decode(p))))
  }

  /** `createParagraph(s)`: the first paragraph match styled, or `""` when there is none. */
  function CreateParagraph(decode: string -> string, s: string): (r: string)
    ensures Paragraphs.FindAll(s) == [] ==> r == ""
  {
    var ps := Paragraphs.FindAll(s);
    if |ps| <= 0 then "" else Style(decode, ps[0])
  }

  /** The paragraphs `main` prints after the title, one per match of the sanitized article. */
  function Render(decode: string -> string, html: string): (r: seq<string>)
    ensures |r| == |Paragraphs.FindAll(html)|
  {
    var ms := Paragraphs.FindAll(html);
    seq(|ms|, k requires 0 <= k < |ms| => CreateParagraph(decode, ms[k]))
  }

  /** Pattern and replacement of every pair are tag-shaped. */
  predicate TagPairsShaped(pairs: seq<(string, string)>) {
    forall k :: 0 <= k < |pairs| ==> TagShaped(pairs[k].0) && TagShaped(pairs[k].1)
  }

  /** No pattern is a prefix of a later replacement or the other way round. */
  predicate NoLaterClash(pairs: seq<(string, string)>) {
    forall k, j :: 0 <= k <= j < |pairs| ==> Incomparable(pairs[k].0, pairs[j].1)
  }

  /**
   * Running the replacements leaves none of their patterns behind, and
   * creates none of the tags `ws` that were absent and clash with no replacement.
   */
  lemma {:induction false} ReplaceEachClears(s: string, pairs: seq<(string, string)>, ws: seq<string>)
    requires TagPairsShaped(pairs) && NoLaterClash(pairs)
    requires forall i :: 0 <= i < |ws| ==> TagShaped(ws[i]) && !Occurs(s, ws[i])
    requires forall i, j :: 0 <= i < |ws| && 0 <= j < |pairs| ==> Incomparable(ws[i], pairs[j].1)
    ensures Patterns(pairs)
    ensures forall i :: 0 <= i < |ws| ==> !Occurs(ReplaceEach(s, pairs), ws[i])
    ensures forall k :: 0 <= k < |pairs| ==> !Occurs(ReplaceEach(s, pairs), pairs[k].0)
    decreases |pairs|
  {
    if pairs != [] {
      var (pat, rep) := pairs[0];
      var s1 := ReplaceAll(s, pat, rep);
      forall i | 0 <= i < |ws|
        ensures !Occurs(s1, ws[i])
      {
        ReplaceLeavesNoTag(s, pat, rep, ws[i]);
      }
      ReplaceLeavesNoTag(s, pat, rep, pat);
      var ws1 := ws + [pat];
      var rest := pairs[1..];
      forall i, j | 0 <= i < |ws1| && 0 <= j < |rest|
        ensures Incomparable(ws1[i], rest[j].1)
      {
        if i == |ws| {
          assert rest[j] == pairs[j + 1];
        }
      }
      ReplaceEachClears(s1, rest, ws1);
      assert forall i :: 0 <= i < |ws| ==> ws1[i] == ws[i];
      assert ws1[|ws|] == pat;
      forall k | 0 <= k < |pairs|
        ensures !Occurs(ReplaceEach(s, pairs), pairs[k].0)
      {
        if k > 0 {
          assert pairs[k] == rest[k - 1];
        }
      }
    }
  }

  /** Replacements whose patterns no longer occur change nothing. */
  lemma {:induction false} ReplaceEachNoop(s: string, pairs: seq<(string, string)>)
    requires Patterns(pairs)
    requires forall k :: 0 <= k < |pairs| ==> !Occurs(s, pairs[k].0)
    ensures ReplaceEach(s, pairs) == s
    decreases |pairs|
  {
    if pairs != [] {
      ReplaceEachNoop(s, pairs[1..]);
    }
  }

  /** The second and third characters of a tag, which tell the tags here apart. */
  function Head(w: string): (r: (char, char))
    requires |w| >= 3
  {
    (w[1], w[2])
  }

  /** Strings that differ in their second or third character are incomparable. */
  lemma HeadsDiffer(a: string, b: string)
    requires |a| >= 3 && |b| >= 3
    ensures Head(a) != Head(b) ==> Incomparable(a, b)
  {
    if StartsWith(a, b) {
      assert a[1] == a[..|b|][1] && a[2] == a[..|b|][2];
    }
    if StartsWith(b, a) {
      assert b[1] == b[..|a|][1] && b[2] == b[..|a|][2];
    }
  }

  /**
   * Every pair is tag-shaped, its pattern begins with one of `heads` and its
   * replacement with none of them.
   */
  predicate HeadsSeparate(pairs: seq<(string, string)>, heads: set<(char, char)>)
    decreases |pairs|
  {
    || pairs == []
    || (&& TagShaped(pairs[0].0) && TagShaped(pairs[0].1)
        && |pairs[0].0| >= 3 && Head(pairs[0].0) in heads
        && |pairs[0].1| >= 3 && Head(pairs[0].1) !in heads
        && HeadsSeparate(pairs[1..], heads))
  }

  /** HeadsSeparate, pair by pair. */
  lemma {:induction false} HeadsSeparateEach(pairs: seq<(string, string)>, heads: set<(char, char)>)
    requires HeadsSeparate(pairs, heads)
    ensures forall k :: 0 <= k < |pairs| ==>
      && TagShaped(pairs[k].0) && TagShaped(pairs[k].1)
      && |pairs[k].0| >= 3 && Head(pairs[k].0) in heads
      && |pairs[k].1| >= 3 && Head(pairs[k].1) !in heads
    decreases |pairs|
  {
    if pairs != [] {
      HeadsSeparateEach(pairs[1..], heads);
      forall k | 0 < k < |pairs|
        ensures pairs[k] == pairs[1..][k - 1]
      {
      }
    }
  }

  /** The heads of the ten patterns `createParagraph` replaces. */
  const PatternHeads: set<(char, char)> := {
    ('e', 'm'), ('/', 'e'), ('s', 't'), ('/', 's'), ('b', '>'),
    ('/', 'b'), ('c', 'o'), ('/', 'c'), ('p', '>'), ('/', 'p')
  }

  /** The eight tag pairs are tag-shaped, and no replacement starts like a pattern. */
  lemma TagPairsHeads()
    ensures forall k :: 0 <= k < |TagPairs| ==>
      && TagShaped(TagPairs[k].0) && TagShaped(TagPairs[k].1)
      && |TagPairs[k].0| >= 3 && Head(TagPairs[k].0) in PatternHeads
      && |TagPairs[k].1| >= 3 && Head(TagPairs[k].1) !in PatternHeads
  {
    var heads := PatternHeads;
    assert HeadsSeparate(TagPairs[8..], heads);
    assert HeadsSeparate(TagPairs[7..], heads);
    assert HeadsSeparate(TagPairs[6..], heads);
    assert HeadsSeparate(TagPairs[5..], heads);
    assert HeadsSeparate(TagPairs[4..], heads);
    assert HeadsSeparate(TagPairs[3..], heads);
    assert HeadsSeparate(TagPairs[2..], heads);
    assert HeadsSeparate(TagPairs[1..], heads);
    assert HeadsSeparate(TagPairs, heads);
    HeadsSeparateEach(TagPairs, heads);
  }

  /** The eight tag pairs meet the conditions of ReplaceEachClears. */
  lemma TagPairsWellFormed()
    ensures TagPairsShaped(TagPairs) && NoLaterClash(TagPairs)
  {
    TagPairsHeads();
    forall k, j | 0 <= k <= j < |TagPairs|
      ensures Incomparable(TagPairs[k].0, TagPairs[j].1)
    {
      HeadsDiffer(TagPairs[k].0, TagPairs[j].1);
    }
  }

  /** After the tag mapping none of the eight HTML tags is left. */
  lemma MapTagsLeavesNoTag(s: string)
    ensures forall k :: 0 <= k < |TagPairs| ==> !Occurs(MapTags(s), TagPairs[k].0)
  {
    TagPairsWellFormed();
    ReplaceEachClears(s, TagPairs, []);
  }

  /** The tag mapping is idempotent. */
  lemma MapTagsIdempotent(s: string)
    ensures MapTags(MapTags(s)) == MapTags(s)
  {
    MapTagsLeavesNoTag(s);
    ReplaceEachNoop(MapTags(s), TagPairs);
  }

  /** Only the first paragraph match counts: formatting it alone gives the same line. */
  lemma FirstMatchOnly(decode: string -> string, s: string)
    requires Paragraphs.FindAll(s) != []
    ensures CreateParagraph(decode, s) == CreateParagraph(decode, Paragraphs.FindAll(s)[0])
  {
    var m := Paragraphs.FindAll(s)[0];
    Paragraphs.FindAllYieldsMatches(s);
    Paragraphs.FindAllOfMatch(m);
  }

  /** A string that is one whole paragraph match is styled as it is. */
  lemma WholeMatchStyled(decode: string -> string, m: string)
    requires Paragraphs.IsMatchText(m)
    ensures CreateParagraph(decode, m) == Style(decode, m)
  {
    Paragraphs.FindAllOfMatch(m);
  }

  /** Each printed line is the styled paragraph match it came from. */
  lemma RenderStylesEachMatch(decode: string -> string, html: string)
    ensures forall k :: 0 <= k < |Render(decode, html)| ==>
      Render(decode, html)[k] == Style(decode, Paragraphs.FindAll(html)[k])
  {
    var ms := Paragraphs.FindAll(html);
    Paragraphs.FindAllYieldsMatches(html);
    forall k | 0 <= k < |ms|
      ensures Render(decode, html)[k] == Style(decode, ms[k])
    {
      Paragraphs.FindAllOfMatch(ms[k]);
    }
  }

  /** The colour tokens and literal pieces the anchor rewrites write are safe text. */
  lemma TokensSafe()
    ensures AnchorFacts.SafeText(" (<blue>") && AnchorFacts.SafeText("</>)")
    ensures AnchorFacts.SafeText("<blue>") && AnchorFacts.SafeText("</>")
    ensures AnchorFacts.SafeText("<bold>")
    ensures AnchorFacts.SafeText(Anchors.Close)
  {
  }

  /** Four safe texts in a row are safe. */
  lemma SafeFour(a: string, b: string, c: string, d: string)
    requires AnchorFacts.SafeText(a) && AnchorFacts.SafeText(b)
    requires AnchorFacts.SafeText(c) && AnchorFacts.SafeText(d)
    ensures AnchorFacts.SafeText(a + b + c + d)
  {
    AnchorFacts.SafeConcat(a, b);
    AnchorFacts.SafeConcat(a + b, c);
    AnchorFacts.SafeConcat(a + b + c, d);
  }

  /**
   * A canonical anchor `<a href="h">t</a>` between safe texts becomes
   * `t (<blue>h</>)`: the full-anchor rewrite runs first and leaves nothing
   * for the opening-tag rewrite.
   */
  lemma AnchorBecomesTextThenHref(pre: string, h: string, t: string, post: string)
    requires AnchorFacts.SafeText(pre) && AnchorFacts.SafeText(post)
    requires AnchorFacts.SafeText(h) && AnchorFacts.SafeText(t)
    requires AnchorFacts.PlainHref(h) && AnchorFacts.PlainText(t)
    ensures RewriteAnchors(pre + AnchorFacts.AnchorText(h, t) + post)
      == pre + (t + " (<blue>" + h + "</>)") + post
  {
    var mid := t + " (<blue>" + h + "</>)";
    AnchorFacts.RewriteFullAnchor(pre, h, t, post);
    AnchorFacts.SafeUnchanged(post, Anchors.FullAnchor, Anchors.TextThenHref);
    TokensSafe();
    SafeFour(t, " (<blue>", h, "</>)");
    OpenTagPassLeaves(pre, mid, post);
  }

  /**
   * An opening tag `<a href="h">` with no `</a>` after it survives the
   * full-anchor rewrite and then becomes `<blue>h</>`.
   */
  lemma LoneOpenTagBecomesBlue(pre: string, h: string, post: string)
    requires AnchorFacts.SafeText(pre) && AnchorFacts.SafeText(h) && AnchorFacts.PlainHref(h)
    requires '<' !in post
    ensures RewriteAnchors(pre + AnchorFacts.OpenTagText(h) + post) == pre + ("<blue>" + h + "</>") + post
  {
    var a := AnchorFacts.OpenTagText(h);
    AnchorFacts.FullPassKeepsLoneTag(h, post);
    AnchorFacts.PlainIsSafe(post);
    AnchorFacts.SafeUnchanged(post, Anchors.FullAnchor, Anchors.TextThenHref);
    AnchorFacts.PeelFront(pre, a, post, Anchors.FullAnchor, Anchors.TextThenHref, a);
    AnchorFacts.RewriteOpenTag(pre, h, post);
    AnchorFacts.SafeUnchanged(post, Anchors.OpenTag, Anchors.BlueHref);
  }

  /** The opening-tag pass over safe text. */
  lemma OpenTagPassLeaves(pre: string, mid: string, post: string)
    requires AnchorFacts.SafeText(pre) && AnchorFacts.SafeText(mid) && AnchorFacts.SafeText(post)
    ensures Anchors.ReplaceAll(pre + mid + post, Anchors.OpenTag, Anchors.BlueHref) == pre + mid + post
  {
    AnchorFacts.SafeConcat(pre, mid);
    AnchorFacts.SafeConcat(pre + mid, post);
    AnchorFacts.SafeUnchanged(pre + mid + post, Anchors.OpenTag, Anchors.BlueHref);
  }

  /**
   * The order matters: rewriting opening tags first would turn the same
   * anchor into `<blue>h</>t</a>`, stranding the display text and the
   * closing tag.
   */
  lemma OpenTagFirstStrandsText(h: string, t: string)
    requires AnchorFacts.SafeText(h) && AnchorFacts.SafeText(t) && AnchorFacts.PlainHref(h)
    ensures Anchors.ReplaceAll(
        Anchors.ReplaceAll(AnchorFacts.AnchorText(h, t), Anchors.OpenTag, Anchors.BlueHref),
        Anchors.FullAnchor, Anchors.TextThenHref)
      == "<blue>" + h + "</>" + (t + Anchors.Close)
  {
    var x := "<blue>" + h + "</>" + (t + Anchors.Close);
    OpenTagPassOnAnchor(h, t);
    TokensSafe();
    AnchorFacts.SafeConcat(t, Anchors.Close);
    SafeFour("<blue>", h, "</>", t + Anchors.Close);
    AnchorFacts.SafeUnchanged(x, Anchors.FullAnchor, Anchors.TextThenHref);
  }

  /** The opening-tag pass alone turns a canonical anchor's opening tag into its blue href. */
  lemma OpenTagPassOnAnchor(h: string, t: string)
    requires AnchorFacts.SafeText(h) && AnchorFacts.SafeText(t) && AnchorFacts.PlainHref(h)
    ensures Anchors.ReplaceAll(AnchorFacts.AnchorText(h, t), Anchors.OpenTag, Anchors.BlueHref)
      == "<blue>" + h + "</>" + (t + Anchors.Close)
  {
    var rest := t + Anchors.Close;
    assert AnchorFacts.AnchorText(h, t) == AnchorFacts.OpenTagText(h) + rest;
    AnchorFacts.ReplaceOpenTagFirst(h, rest, Anchors.BlueHref);
    TokensSafe();
    AnchorFacts.SafeConcat(t, Anchors.Close);
    AnchorFacts.SafeUnchanged(rest, Anchors.OpenTag, Anchors.BlueHref);
  }

  /** All ten replacements of `createParagraph`, in the order they run. */
  const StylePairs: seq<(string, string)> := TagPairs + ParagraphPairs

  /** Running two lists of replacements is running their concatenation. */
  lemma {:induction false} ReplaceEachAppend(s: string, a: seq<(string, string)>, b: seq<(string, string)>)
    requires Patterns(a) && Patterns(b)
    ensures Patterns(a + b)
    ensures ReplaceEach(ReplaceEach(s, a), b) == ReplaceEach(s, a + b)
    decreases |a|
  {
    if a != [] {
      assert (a + b)[1..] == a[1..] + b;
      ReplaceEachAppend(ReplaceAll(s, a[0].0, a[0].1), a[1..], b);
    } else {
      assert a + b == b;
    }
  }

  /** Every pattern is a tag, and every replacement fits every pattern. */
  predicate PairsFit(pairs: seq<(string, string)>) {
    && (forall k :: 0 <= k < |pairs| ==> TagShaped(pairs[k].0))
    && (forall j, k :: 0 <= j < |pairs| && 0 <= k < |pairs| ==> Fits(pairs[j].1, pairs[k].0))
  }

  /** Every token fits every pattern. */
  predicate TokensFit(toks: seq<string>, pairs: seq<(string, string)>) {
    forall i, k :: 0 <= i < |toks| && 0 <= k < |pairs| ==> Fits(toks[i], pairs[k].0)
  }

  /** One token passed through the replacements in turn, as a whole. */
  function Translate(tok: string, pairs: seq<(string, string)>): (r: string)
    decreases |pairs|
  {
    if pairs == [] then tok
    else Translate(if tok == pairs[0].0 then pairs[0].1 else tok, pairs[1..])
  }

  /** Every token translated. */
  function TranslateAll(toks: seq<string>, pairs: seq<(string, string)>): (r: seq<string>)
    ensures |r| == |toks|
    ensures forall i :: 0 <= i < |toks| ==> r[i] == Translate(toks[i], pairs)
  {
    seq(|toks|, i requires 0 <= i < |toks| => Translate(toks[i], pairs))
  }

  /**
   * On a string made of plain text and whole tags, the chain of
   * `strings.Replace` calls acts on each token separately.
   */
  lemma {:induction false} ReplaceEachTokens(toks: seq<string>, pairs: seq<(string, string)>)
    requires PairsFit(pairs) && TokensFit(toks, pairs)
    ensures Patterns(pairs)
    ensures ReplaceEach(Concat(toks), pairs) == Concat(TranslateAll(toks, pairs))
    decreases |pairs|
  {
    if pairs == [] {
      assert TranslateAll(toks, pairs) == toks;
    } else {
      var (pat, rep) := pairs[0];
      var rest := pairs[1..];
      ReplaceTokens(toks, pat, rep);
      var toks1 := Substitute(toks, pat, rep);
      forall k | 0 <= k < |rest|
        ensures pairs[k + 1] == rest[k]
      {
      }
      assert PairsFit(rest);
      assert TokensFit(toks1, rest);
      ReplaceEachTokens(toks1, rest);
      assert TranslateAll(toks1, rest) == TranslateAll(toks, pairs);
    }
  }

  /** Each of the ten pairs: a tag pattern, and a replacement that is plain or a tag starting unlike any pattern. */
  lemma StylePairsHeads()
    ensures |StylePairs| == 10
    ensures forall k :: 0 <= k < |StylePairs| ==>
      TagShaped(StylePairs[k].0) && |StylePairs[k].0| >= 3 && Head(StylePairs[k].0) in PatternHeads
    ensures forall k :: 0 <= k < |StylePairs| ==>
      || Plain(StylePairs[k].1)
      || (TagShaped(StylePairs[k].1) && |StylePairs[k].1| >= 3 && Head(StylePairs[k].1) !in PatternHeads)
  {
    TagPairsHeads();
    assert TagShaped("<p>") && Head("<p>") == ('p', '>');
    assert TagShaped("</p>") && Head("</p>") == ('/', 'p');
    assert Plain("");
    forall k | 0 <= k < |StylePairs|
      ensures StylePairs[k] == if k < 8 then TagPairs[k] else ParagraphPairs[k - 8]
    {
    }
  }

  /** The heads of the ten patterns, in order. */
  const StyleHeads: seq<(char, char)> := [
    ('e', 'm'), ('/', 'e'), ('s', 't'), ('/', 's'), ('b', '>'),
    ('/', 'b'), ('c', 'o'), ('/', 'c'), ('p', '>'), ('/', 'p')
  ]

  /** The listed heads are the patterns' heads. */
  lemma StyleHeadsListed()
    ensures |StylePairs| == |StyleHeads|
    ensures forall k :: 0 <= k < |StylePairs| ==> |StylePairs[k].0| >= 3 && Head(StylePairs[k].0) == StyleHeads[k]
  {
    forall k | 0 <= k < |StylePairs|
      ensures StylePairs[k] == if k < 8 then TagPairs[k] else ParagraphPairs[k - 8]
    {
    }
  }

  /** The listed heads are pairwise different. */
  lemma StyleHeadsDistinct()
    ensures forall m, k :: 0 <= m < k < |StyleHeads| ==> StyleHeads[m] != StyleHeads[k]
  {
  }

  /** The ten patterns start differently, so they are pairwise different. */
  lemma PatternHeadsDistinct()
    ensures forall m, k :: 0 <= m < |StylePairs| && 0 <= k < |StylePairs| && m != k ==>
      |StylePairs[m].0| >= 3 && |StylePairs[k].0| >= 3 && Head(StylePairs[m].0) != Head(StylePairs[k].0)
  {
    StyleHeadsListed();
    StyleHeadsDistinct();
  }

  /** The ten replacements of `createParagraph` fit each other. */
  lemma StylePairsFit()
    ensures PairsFit(StylePairs)
  {
    StylePairsHeads();
    forall j, k | 0 <= j < |StylePairs| && 0 <= k < |StylePairs|
      ensures Fits(StylePairs[j].1, StylePairs[k].0)
    {
      if !Plain(StylePairs[j].1) {
        HeadsDiffer(StylePairs[j].1, StylePairs[k].0);
      }
    }
  }

  /** A token that is no pattern passes through unchanged. */
  lemma {:induction false} TranslateOther(tok: string, pairs: seq<(string, string)>)
    requires forall k :: 0 <= k < |pairs| ==> pairs[k].0 != tok
    ensures Translate(tok, pairs) == tok
    decreases |pairs|
  {
    if pairs != [] {
      assert forall k :: 0 <= k < |pairs| - 1 ==> pairs[1..][k] == pairs[k + 1];
      TranslateOther(tok, pairs[1..]);
    }
  }

  /**
   * The `m`-th pattern becomes the `m`-th replacement, provided no earlier
   * pattern equals it and no later pattern equals its replacement.
   */
  lemma {:induction false} TranslatePattern(pairs: seq<(string, string)>, m: nat)
    requires m < |pairs|
    requires forall k :: 0 <= k < m ==> pairs[k].0 != pairs[m].0
    requires forall k :: m < k < |pairs| ==> pairs[k].0 != pairs[m].1
    ensures Translate(pairs[m].0, pairs) == pairs[m].1
    decreases m
  {
    var rest := pairs[1..];
    assert forall k :: 0 <= k < |rest| ==> rest[k] == pairs[k + 1];
    if m == 0 {
      TranslateOther(pairs[0].1, rest);
    } else {
      TranslatePattern(rest, m - 1);
    }
  }

  /** Each of the ten patterns becomes its own replacement. */
  lemma StylePatternsTranslate(m: nat)
    requires m < |StylePairs|
    ensures Translate(StylePairs[m].0, StylePairs) == StylePairs[m].1
  {
    StylePairsHeads();
    PatternHeadsDistinct();
    forall k | m < k < |StylePairs|
      ensures StylePairs[k].0 != StylePairs[m].1
    {
      if Plain(StylePairs[m].1) {
        assert StylePairs[k].0[0] == '<';
      } else {
        HeadsDiffer(StylePairs[k].0, StylePairs[m].1);
      }
    }
    TranslatePattern(StylePairs, m);
  }

  /** Plain text is no pattern and passes through unchanged. */
  lemma PlainTranslates(x: string)
    requires Plain(x)
    ensures Translate(x, StylePairs) == x
  {
    StylePairsHeads();
    forall k | 0 <= k < |StylePairs|
      ensures StylePairs[k].0 != x
    {
      assert StylePairs[k].0[0] == '<';
    }
    TranslateOther(x, StylePairs);
  }

  /** A pattern used as a token fits every pattern. */
  lemma PatternFits(m: nat)
    requires m < |StylePairs|
    ensures forall k :: 0 <= k < |StylePairs| ==> Fits(StylePairs[m].0, StylePairs[k].0)
  {
    StylePairsHeads();
    PatternHeadsDistinct();
    forall k | 0 <= k < |StylePairs|
      ensures Fits(StylePairs[m].0, StylePairs[k].0)
    {
      HeadsDiffer(StylePairs[m].0, StylePairs[k].0);
    }
  }

  /** Plain text used as a token fits every pattern. */
  lemma PlainFits(x: string)
    requires Plain(x)
    ensures forall k :: 0 <= k < |StylePairs| ==> Fits(x, StylePairs[k].0)
  {
  }

  /**
   * `createParagraph`'s styling of a paragraph made of plain text and whole
   * tags, with no anchors left after translation and nothing to unescape:
   * every tag token is translated on its own.
   */
  lemma StyleOfTokens(decode: string -> string, toks: seq<string>)
    requires decode(Concat(toks)) == Concat(toks)
    requires TokensFit(toks, StylePairs)
    requires AnchorFacts.SafeText(Concat(TranslateAll(toks, StylePairs)))
    ensures Style(decode, Concat(toks)) == Concat(TranslateAll(toks, StylePairs))
  {
    var x := Concat(toks);
    var out := Concat(TranslateAll(toks, StylePairs));
    StylePairsFit();
    ReplaceEachTokens(toks, StylePairs);
    ReplaceEachAppend(x, TagPairs, ParagraphPairs);
    AnchorFacts.SafeUnchanged(out, Anchors.FullAnchor, Anchors.TextThenHref);
    AnchorFacts.SafeUnchanged(out, Anchors.OpenTag, Anchors.BlueHref);
  }
}
