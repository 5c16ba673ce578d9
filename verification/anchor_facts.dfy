/**
 * Facts about the anchor scanners: they look only at the text a match covers,
 * they pass over text that cannot start an anchor, and on the canonical
 * anchor shape `<a href="U">L</a>` that the sanitizer emits they capture
 * exactly `U` and `L`.
 */
module AnchorFacts {
  import opened Wrappers
  import opened Scan
  import opened Anchors

  /**
   * Text that cannot start an anchor: every `<` in it is followed, inside it,
   * by something other than `a`/`A`. Text without `<` qualifies, and so do the
   * colour tokens the formatter writes.
   */
  predicate SafeText(x: string)
    decreases |x|
  {
    |x| == 0 || ((x[0] == '<' ==> |x| > 1 && Lower(x[1]) != 'a') && SafeText(x[1..]))
  }

  /** Safe text in front passes through either rewrite unchanged. */
  lemma {:induction false} Peel(x: string, y: string, rule: Rule, tmpl: Template)
    requires SafeText(x)
    ensures ReplaceAll(x + y, rule, tmpl) == x + ReplaceAll(y, rule, tmpl)
    decreases |x|
  {
    if |x| > 0 {
      SafeHeadNoLead(x, y);
      ReplaceStep(x, y, rule, tmpl);
      Peel(x[1..], y, rule, tmpl);
      ConsSplit(x, ReplaceAll(y, rule, tmpl));
    } else {
      assert x + y == y;
    }
  }

  /** With no `<a` in front, replacement copies the first character and goes on. */
  lemma ReplaceStep(x: string, y: string, rule: Rule, tmpl: Template)
    requires |x| > 0 && !CiAt(x + y, 0, Lead)
    ensures ReplaceAll(x + y, rule, tmpl) == [x[0]] + ReplaceAll(x[1..] + y, rule, tmpl)
  {
    var s := x + y;
    NoLeadNoMatch(s, rule);
    RewriteCopiesHead(s, rule, tmpl);
    assert s[1..] == x[1..] + y;
  }

  /** No anchor starts at the front of safe text, whatever follows it. */
  lemma SafeHeadNoLead(x: string, y: string)
    requires SafeText(x) && |x| > 0
    ensures !CiAt(x + y, 0, Lead)
  {
    var s := x + y;
    LowerOfSymbol(s[0], '<');
    assert Lead[0] == '<' && Lead[1] == 'a';
    if x[0] == '<' {
      assert Lower(s[0 + 1]) != Lead[1];
    } else {
      assert Lower(s[0 + 0]) != Lead[0];
    }
  }

  /** Without `<a` in front there is no match of either pattern. */
  lemma NoLeadNoMatch(s: string, rule: Rule)
    requires !CiAt(s, 0, Lead)
    ensures MatchAt(s, 0, rule).None?
  {
  }

  /** Without a match in front, replacement copies the first character. */
  lemma RewriteCopiesHead(s: string, rule: Rule, tmpl: Template)
    requires |s| > 0 && MatchAt(s, 0, rule).None?
    ensures ReplaceAll(s, rule, tmpl) == [s[0]] + ReplaceAll(s[1..], rule, tmpl)
  {
  }

  /** Safe text has no anchors at all. */
  lemma SafeUnchanged(x: string, rule: Rule, tmpl: Template)
    requires SafeText(x)
    ensures ReplaceAll(x, rule, tmpl) == x
  {
    Peel(x, "", rule, tmpl);
    assert x + "" == x;
  }

  /** An href as the sanitizer writes it: non-empty, no quote, no line break. */
  predicate PlainHref(h: string) {
    |h| > 0 && '"' !in h && '\n' !in h
  }

  /** Display text that stays on one line and holds no closing `</a>` in any case. */
  predicate PlainText(t: string) {
    '\n' !in t && forall k :: 0 <= k < |t| ==> !CiAt(t, k, Close)
  }

  /** The canonical opening tag `<a href="h">`. */
  function OpenTagText(h: string): (r: string) {
    "<a href=\"" + h + "\">"
  }

  /** The canonical anchor `<a href="h">t</a>`. */
  function AnchorText(h: string, t: string): (r: string) {
    OpenTagText(h) + t + "</a>"
  }

  /** Where each piece of a canonical opening tag sits. */
  lemma OpenTagLayout(h: string, rest: string)
    ensures var s := OpenTagText(h) + rest;
      && |s| == 11 + |h| + |rest|
      && s[0] == '<' && s[1] == 'a' && s[2] == ' '
      && s[3..9] == HrefAttr && s[9..9 + |h|] == h
      && s[9 + |h|] == '"' && s[10 + |h|] == '>'
      && s[11 + |h|..] == rest
  {
  }

  /** `<a href="` is found at once in a canonical tag. */
  lemma CanonicalHrefStart(h: string, rest: string)
    ensures HrefStart(OpenTagText(h) + rest, 0) == Some(9)
  {
    var s := OpenTagText(h) + rest;
    OpenTagLayout(h, rest);
    assert CiAt(s, 0, Lead);
    assert CiAt(s, 3, HrefAttr) by {
      forall j | 0 <= j < 6 ensures Lower(s[3 + j]) == HrefAttr[j] {
        assert s[3 + j] == s[3..9][j];
      }
    }
  }

  /** The href of a canonical tag ends at its closing quote. */
  lemma CanonicalHrefEnd(h: string, rest: string)
    requires PlainHref(h)
    ensures HrefEnd(OpenTagText(h) + rest, 9) == Some(9 + |h|)
  {
    var s := OpenTagText(h) + rest;
    OpenTagLayout(h, rest);
    assert s[9] == h[0];
    forall k | 10 <= k < 9 + |h|
      ensures !CiAt(s, k, Quote)
    {
      assert s[k] == h[k - 9];
      LowerOfSymbol(s[k], '"');
    }
    assert s[10..9 + |h|] == h[1..];
    LowerOfSymbol(s[9 + |h|], '"');
    assert CiAt(s, 9 + |h|, Quote);
    NextCiIs(s, 10, 9 + |h|, Quote);
  }

  /** A canonical tag closes right after the quote. */
  lemma CanonicalTagClose(h: string, rest: string)
    ensures TagClose(OpenTagText(h) + rest, 9 + |h|) == Some(11 + |h|)
  {
    var s := OpenTagText(h) + rest;
    OpenTagLayout(h, rest);
    assert CiAt(s, 10 + |h|, TagEnd);
  }

  /** The canonical opening tag is recognised with its href. */
  lemma CanonicalOpenTag(h: string, rest: string)
    requires PlainHref(h)
    ensures OpenTagAt(OpenTagText(h) + rest, 0) == Some(Tag(9, 9 + |h|, 11 + |h|))
  {
    CanonicalHrefStart(h, rest);
    CanonicalHrefEnd(h, rest);
    CanonicalTagClose(h, rest);
  }

  /** The open-tag pattern matches a canonical tag and captures its href. */
  lemma CanonicalOpenMatch(h: string, rest: string)
    requires PlainHref(h)
    ensures MatchAt(OpenTagText(h) + rest, 0, OpenTag) == Some(Match(h, "", |OpenTagText(h)|))
  {
    CanonicalOpenTag(h, rest);
    OpenTagLayout(h, rest);
  }

  /**
   * Scanning from the start of plain display text `t` that sits at `m` and is
   * followed by `</a>`, the first closing tag found is the one right after it.
   */
  lemma CloseAfterText(s: string, m: nat, t: string)
    requires PlainText(t) && m + |t| + 4 <= |s| && s[m..m + |t|] == t
    requires s[m + |t|..m + |t| + 4] == Close
    ensures NextCi(s, m, Close) == Some(m + |t|)
  {
    var e := m + |t|;
    assert s[e] == s[e..e + 4][0] == '<';
    forall k | m <= k < e
      ensures !CiAt(s, k, Close)
    {
      if k + 4 <= e {
        CiAtWindow(s, m, e, k - m, Close);
      } else {
        var d := e - k;
        assert Lower(s[k + d]) == '<' != Close[d];
      }
    }
    assert CiAt(s, e, Close) by {
      forall j | 0 <= j < 4 ensures Lower(s[e + j]) == Close[j] {
        assert s[e + j] == s[e..e + 4][j];
      }
    }
    NextCiIs(s, m, e, Close);
  }

  /** Where the text of a canonical anchor and its closing tag sit. */
  lemma AnchorLayout(h: string, t: string, y: string)
    ensures var s := OpenTagText(h) + (t + Close + y);
      && s == AnchorText(h, t) + y
      && |AnchorText(h, t)| == 15 + |h| + |t|
      && s[9..9 + |h|] == h
      && s[11 + |h|..11 + |h| + |t|] == t
  {
    var z := t + Close + y;
    OpenTagLayout(h, z);
    assert z[..|t|] == t;
  }

  /** Scanning plain display text followed by `</a>`, the closing tag found is that one. */
  lemma TextThenClose(t: string, y: string)
    requires PlainText(t)
    ensures NextCi(t + Close + y, 0, Close) == Some(|t|)
  {
    var z := t + Close + y;
    assert z[0..|t|] == t && z[|t|..|t| + 4] == Close;
    CloseAfterText(z, 0, t);
  }

  /** A closing tag found in `z` is found at the same place after any prefix. */
  lemma CloseAfterPrefix(x: string, z: string, n: nat)
    requires NextCi(z, 0, Close) == Some(n)
    ensures NextCi(x + z, |x|, Close) == Some(|x| + n)
  {
    NextCiShift(x, z, 0, Close);
  }

  /** After a canonical opening tag, the closing `</a>` found is the one found in what follows the tag. */
  lemma CanonicalClose(h: string, z: string, n: nat)
    requires NextCi(z, 0, Close) == Some(n)
    ensures NextCi(OpenTagText(h) + z, 11 + |h|, Close) == Some(11 + |h| + n)
  {
    var x := OpenTagText(h);
    CloseAfterPrefix(x, z, n);
    CloseAfterTagText(x, h, z, n);
  }

  /** CloseAfterPrefix with the prefix spelled out as the opening tag for `h`. */
  lemma CloseAfterTagText(x: string, h: string, z: string, n: nat)
    requires x == OpenTagText(h)
    requires NextCi(x + z, |x|, Close) == Some(|x| + n)
    ensures NextCi(OpenTagText(h) + z, 11 + |h|, Close) == Some(11 + |h| + n)
  {
    assert |x| == 11 + |h|;
  }

  /** The full-anchor pattern reads the href and the text from where the scanners stop. */
  lemma FullMatchFromParts(s: string, h: string, t: string, b: nat, c: nat, e: nat)
    requires b == 9 + |h| && c == b + 2 && e == c + |t| && e + 4 <= |s|
    requires OpenTagAt(s, 0) == Some(Tag(9, b, c))
    requires NextCi(s, c, Close) == Some(e)
    requires s[9..b] == h && s[c..e] == t
    ensures MatchAt(s, 0, FullAnchor) == Some(Match(h, t, e + 4))
  {
    MatchFromTag(s, 9, b, c, e);
  }

  /** The full-anchor match read off an opening tag and the closing tag found after it. */
  lemma MatchFromTag(s: string, a: nat, b: nat, c: nat, e: nat)
    requires OpenTagAt(s, 0) == Some(Tag(a, b, c))
    requires NextCi(s, c, Close) == Some(e) && e + 4 <= |s|
    ensures MatchAt(s, 0, FullAnchor) == Some(Match(s[a..b], s[c..e], e + 4))
  {
  }

  /** The full-anchor pattern matches a canonical anchor and captures its href and text. */
  lemma CanonicalFullMatch(h: string, t: string, y: string)
    requires PlainHref(h) && PlainText(t)
    ensures MatchAt(AnchorText(h, t) + y, 0, FullAnchor) == Some(Match(h, t, |AnchorText(h, t)|))
  {
    TextThenClose(t, y);
    CanonicalClose(h, t + Close + y, |t|);
    FullMatchOfLayout(h, t, y);
  }

  /** FullMatchFromParts for a canonical opening tag whose closing tag is found after the text. */
  lemma FullMatchOfLayout(h: string, t: string, y: string)
    requires PlainHref(h)
    requires NextCi(OpenTagText(h) + (t + Close + y), 11 + |h|, Close) == Some(11 + |h| + |t|)
    ensures MatchAt(AnchorText(h, t) + y, 0, FullAnchor) == Some(Match(h, t, |AnchorText(h, t)|))
  {
    CanonicalOpenTag(h, t + Close + y);
    AnchorLayout(h, t, y);
    var b, c := 9 + |h|, 11 + |h|;
    FullMatchFromParts(OpenTagText(h) + (t + Close + y), h, t, b, c, c + |t|);
  }

  /** A canonical anchor at the front is rewritten by the template and the rest follows. */
  lemma ReplaceAnchorFirst(h: string, t: string, post: string, tmpl: Template)
    requires PlainHref(h) && PlainText(t)
    ensures ReplaceAll(AnchorText(h, t) + post, FullAnchor, tmpl)
      == Expand(tmpl, Match(h, t, |AnchorText(h, t)|)) + ReplaceAll(post, FullAnchor, tmpl)
  {
    var a := AnchorText(h, t);
    CanonicalFullMatch(h, t, post);
    assert (a + post)[|a|..] == post;
  }

  /** A canonical opening tag at the front is rewritten by the template and the rest follows. */
  lemma ReplaceOpenTagFirst(h: string, post: string, tmpl: Template)
    requires PlainHref(h)
    ensures ReplaceAll(OpenTagText(h) + post, OpenTag, tmpl)
      == Expand(tmpl, Match(h, "", |OpenTagText(h)|)) + ReplaceAll(post, OpenTag, tmpl)
  {
    var a := OpenTagText(h);
    CanonicalOpenMatch(h, post);
    assert (a + post)[|a|..] == post;
  }

  /**
   * `regATag2.ReplaceAllString(s, "$2 (<blue>$1</>)")` on a canonical anchor
   * behind safe text: the anchor becomes its text followed by its blue href.
   */
  lemma RewriteFullAnchor(pre: string, h: string, t: string, post: string)
    requires SafeText(pre) && PlainHref(h) && PlainText(t)
    ensures ReplaceAll(pre + AnchorText(h, t) + post, FullAnchor, TextThenHref)
      == pre + (t + " (<blue>" + h + "</>)") + ReplaceAll(post, FullAnchor, TextThenHref)
  {
    var a := AnchorText(h, t);
    var e := t + " (<blue>" + h + "</>)";
    ReplaceAnchorFirst(h, t, post, TextThenHref);
    PeelFront(pre, a, post, FullAnchor, TextThenHref, e);
  }

  /**
   * `regATag1.ReplaceAllString(s, "<blue>$1</>")` on a canonical opening tag
   * behind safe text: the tag becomes its blue href.
   */
  lemma RewriteOpenTag(pre: string, h: string, post: string)
    requires SafeText(pre) && PlainHref(h)
    ensures ReplaceAll(pre + OpenTagText(h) + post, OpenTag, BlueHref)
      == pre + ("<blue>" + h + "</>") + ReplaceAll(post, OpenTag, BlueHref)
  {
    var a := OpenTagText(h);
    var e := "<blue>" + h + "</>";
    ReplaceOpenTagFirst(h, post, BlueHref);
    PeelFront(pre, a, post, OpenTag, BlueHref, e);
  }

  /** Safe text in front of a rewritten piece is copied in front of its rewrite. */
  lemma PeelFront(pre: string, a: string, post: string, rule: Rule, tmpl: Template, e: string)
    requires SafeText(pre)
    requires ReplaceAll(a + post, rule, tmpl) == e + ReplaceAll(post, rule, tmpl)
    ensures ReplaceAll(pre + a + post, rule, tmpl) == pre + e + ReplaceAll(post, rule, tmpl)
  {
    Assoc(pre, a, post);
    Peel(pre, a + post, rule, tmpl);
    Assoc(pre, e, ReplaceAll(post, rule, tmpl));
  }

  /** No `</a>` can be found where no `<` follows. */
  lemma NoCloseAfter(s: string, from: nat)
    requires forall k :: from <= k < |s| ==> s[k] != '<'
    ensures NextCi(s, from, Close).None?
  {
    forall k | from <= k < |s|
      ensures Lower(s[k]) != Close[0]
    {
      LowerOfSymbol(s[k], '<');
    }
    NextCiMissingHead(s, from, Close);
  }

  /** A canonical opening tag with no `<` after it is no full anchor: its `</a>` is missing. */
  lemma LoneTagNoFullMatch(h: string, post: string)
    requires PlainHref(h) && '<' !in post
    ensures MatchAt(OpenTagText(h) + post, 0, FullAnchor).None?
  {
    var a := OpenTagText(h);
    var s := a + post;
    CanonicalOpenTag(h, post);
    forall k | |a| <= k < |s|
      ensures s[k] != '<'
    {
      assert s[k] == post[k - |a|];
    }
    NoCloseAfter(s, 11 + |h|);
  }

  /** The full-anchor rewrite leaves a lone canonical opening tag, followed by `<`-free text, as it is. */
  lemma FullPassKeepsLoneTag(h: string, post: string)
    requires PlainHref(h) && SafeText(h) && '<' !in post
    ensures ReplaceAll(OpenTagText(h) + post, FullAnchor, TextThenHref) == OpenTagText(h) + post
  {
    var s := OpenTagText(h) + post;
    LoneTagNoFullMatch(h, post);
    TagTailSafe(h, post);
    KeptWhenNoMatch(s, FullAnchor, TextThenHref);
  }

  /** Past its `<`, a canonical opening tag followed by `<`-free text is safe. */
  lemma TagTailSafe(h: string, post: string)
    requires SafeText(h) && '<' !in post
    ensures SafeText((OpenTagText(h) + post)[1..])
  {
    var inner := "a href=\"";
    var tail := "\">";
    assert (OpenTagText(h) + post)[1..] == inner + h + tail + post;
    PlainIsSafe(inner);
    PlainIsSafe(tail);
    PlainIsSafe(post);
    SafeConcat(inner, h);
    SafeConcat(inner + h, tail);
    SafeConcat(inner + h + tail, post);
  }

  /** With no match in front and safe text after the first character, a rewrite changes nothing. */
  lemma KeptWhenNoMatch(s: string, rule: Rule, tmpl: Template)
    requires |s| > 0 && MatchAt(s, 0, rule).None? && SafeText(s[1..])
    ensures ReplaceAll(s, rule, tmpl) == s
  {
    RewriteCopiesHead(s, rule, tmpl);
    SafeUnchanged(s[1..], rule, tmpl);
    assert s == [s[0]] + s[1..];
  }

  /** Text without any `<` is safe. */
  lemma {:induction false} PlainIsSafe(x: string)
    requires '<' !in x
    ensures SafeText(x)
    decreases |x|
  {
    if |x| > 0 {
      assert x[0] in x;
      assert forall c :: c in x[1..] ==> c in x;
      PlainIsSafe(x[1..]);
    }
  }

  /** Safe text ends in something other than `<`, so safe texts concatenate safely. */
  lemma {:induction false} SafeConcat(x: string, y: string)
    requires SafeText(x) && SafeText(y)
    ensures SafeText(x + y)
    decreases |x|
  {
    if |x| > 0 {
      SafeConcat(x[1..], y);
      assert (x + y)[1..] == x[1..] + y;
      if x[0] == '<' {
        assert (x + y)[1] == x[1];
      }
    } else {
      assert x + y == y;
    }
  }
}
