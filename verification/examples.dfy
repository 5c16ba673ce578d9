/**
 * Worked paragraphs for `createParagraph`: `<p>Hello <b>world</b></p>`
 * becomes `Hello <bold>world</>`, `<p>Bye</p>` becomes `Bye`, and `<p></p>`
 * is no paragraph at all. Each is proved for any plain words in place of
 * the literal ones.
 */
module Examples {
  import opened Scan
  import opened Text
  import Paragraphs
  import AnchorFacts
  import opened Format

  /** No closing paragraph tag starts among the first `n` characters of `t`. */
  predicate NoCloseBefore(t: string, n: nat) {
    forall k :: 0 <= k < n ==> !CiAt(t, k, Paragraphs.Close)
  }

  /** Inside plain text no closing tag can start. */
  lemma PlainNoClose(t: string, k: nat)
    requires k < |t| && t[k] != '<'
    ensures !CiAt(t, k, Paragraphs.Close)
  {
    LowerOfSymbol(t[k], '<');
    assert Lower(t[k + 0]) != Paragraphs.Close[0];
  }

  /** `a<b>b</b>` holds no closing paragraph tag, also not one running into a final `</p>`. */
  lemma BoldNoClose(a: string, b: string)
    requires Plain(a) && Plain(b)
    ensures NoCloseBefore(a + "<b>" + b + "</b>" + Paragraphs.Close, |a + "<b>" + b + "</b>"|)
  {
    var t := a + "<b>" + b + "</b>" + Paragraphs.Close;
    var n := |a + "<b>" + b + "</b>"|;
    forall k | 0 <= k < n
      ensures !CiAt(t, k, Paragraphs.Close)
    {
      if k < |a| {
        assert t[k] == a[k];
        PlainNoClose(t, k);
      } else if k == |a| {
        assert Lower(t[k + 1]) != Paragraphs.Close[1];
      } else if k < |a| + 3 {
        assert t[k] == "<b>"[k - |a|];
        PlainNoClose(t, k);
      } else if k < |a| + 3 + |b| {
        assert t[k] == b[k - |a| - 3];
        PlainNoClose(t, k);
      } else if k == |a| + 3 + |b| {
        assert Lower(t[k + 2]) != Paragraphs.Close[2];
      } else {
        assert t[k] == "</b>"[k - |a| - 3 - |b|];
        PlainNoClose(t, k);
      }
    }
  }

  /** The tag tokens of the bold example are patterns 4, 5, 8 and 9 of the ten. */
  lemma BoldPatterns()
    ensures StylePairs[4] == ("<b>", "<bold>") && StylePairs[5] == ("</b>", "</>")
    ensures StylePairs[8] == ("<p>", "") && StylePairs[9] == ("</p>", "")
  {
    assert StylePairs[4] == TagPairs[4] && StylePairs[5] == TagPairs[5];
    assert StylePairs[8] == ParagraphPairs[0] && StylePairs[9] == ParagraphPairs[1];
  }

  /** The bold example as tokens. */
  function BoldToks(a: string, b: string): (r: seq<string>) {
    ["<p>", a, "<b>", b, "</b>", "</p>"]
  }

  /** The tokens spell the paragraph. */
  lemma BoldConcat(a: string, b: string)
    ensures Concat(BoldToks(a, b)) == "<p>" + a + "<b>" + b + "</b></p>"
  {
    var toks := BoldToks(a, b);
    assert Concat(toks[5..]) == "</p>";
    assert Concat(toks[4..]) == "</b></p>";
    assert Concat(toks[3..]) == b + "</b></p>";
    assert Concat(toks[2..]) == "<b>" + b + "</b></p>";
    assert Concat(toks[1..]) == a + "<b>" + b + "</b></p>";
  }

  /** Each token is plain or a whole pattern. */
  lemma BoldFit(a: string, b: string)
    requires Plain(a) && Plain(b)
    ensures TokensFit(BoldToks(a, b), StylePairs)
  {
    BoldPatterns();
    PlainFits(a);
    PlainFits(b);
    PatternFits(4);
    PatternFits(5);
    PatternFits(8);
    PatternFits(9);
  }

  /** Token by token: the paragraph tags vanish, `<b>` and `</b>` become `<bold>` and `</>`. */
  lemma BoldTranslate(a: string, b: string)
    requires Plain(a) && Plain(b)
    ensures TranslateAll(BoldToks(a, b), StylePairs) == ["", a, "<bold>", b, "</>", ""]
  {
    BoldPatterns();
    PlainTranslates(a);
    PlainTranslates(b);
    StylePatternsTranslate(4);
    StylePatternsTranslate(5);
    StylePatternsTranslate(8);
    StylePatternsTranslate(9);
  }

  /** The translated tokens spell `a<bold>b</>`, which holds no anchor. */
  lemma BoldOutput(a: string, b: string)
    requires Plain(a) && Plain(b)
    ensures Concat(["", a, "<bold>", b, "</>", ""]) == a + "<bold>" + b + "</>"
    ensures AnchorFacts.SafeText(a + "<bold>" + b + "</>")
  {
    var out := ["", a, "<bold>", b, "</>", ""];
    assert Concat(out[5..]) == "";
    assert Concat(out[4..]) == "</>";
    assert Concat(out[3..]) == b + "</>";
    assert Concat(out[2..]) == "<bold>" + b + "</>";
    assert Concat(out[1..]) == a + "<bold>" + b + "</>";
    AnchorFacts.PlainIsSafe(a);
    AnchorFacts.PlainIsSafe(b);
    TokensSafe();
    SafeFour(a, "<bold>", b, "</>");
  }

  /** The bold example is one whole paragraph match. */
  lemma BoldMatch(a: string, b: string)
    requires Plain(a) && Plain(b) && '\n' !in a && '\n' !in b
    ensures Paragraphs.IsMatchText("<p>" + a + "<b>" + b + "</b></p>")
  {
    var x := a + "<b>" + b + "</b>";
    assert "<p>" + a + "<b>" + b + "</b></p>" == Paragraphs.Open + x + Paragraphs.Close;
    BoldNoClose(a, b);
    assert '\n' !in x;
    Paragraphs.WrappedIsMatch(x);
  }

  /**
   * `<p>a<b>b</b></p>`, with plain single-line words `a` and `b` and nothing
   * to unescape, becomes `a<bold>b</>`; `<p>Hello <b>world</b></p>` is the
   * instance `a = "Hello "`, `b = "world"`.
   */
  lemma BoldParagraph(decode: string -> string, a: string, b: string)
    requires Plain(a) && Plain(b) && '\n' !in a && '\n' !in b
    requires decode("<p>" + a + "<b>" + b + "</b></p>") == "<p>" + a + "<b>" + b + "</b></p>"
    ensures CreateParagraph(decode, "<p>" + a + "<b>" + b + "</b></p>") == a + "<bold>" + b + "</>"
  {
    var m := "<p>" + a + "<b>" + b + "</b></p>";
    BoldMatch(a, b);
    WholeMatchStyled(decode, m);
    BoldConcat(a, b);
    BoldFit(a, b);
    BoldTranslate(a, b);
    BoldOutput(a, b);
    StyleOfTokens(decode, BoldToks(a, b));
  }

  /** The literal example is the bold shape with `a = "Hello "` and `b = "world"`. */
  lemma HelloSpelling()
    ensures Plain("Hello ") && Plain("world") && '\n' !in "Hello " && '\n' !in "world"
    ensures "<p>" + "Hello " + "<b>" + "world" + "</b></p>" == "<p>Hello <b>world</b></p>"
    ensures "Hello " + "<bold>" + "world" + "</>" == "Hello <bold>world</>"
  {
  }

  /** `<p>Hello <b>world</b></p>` prints as `Hello <bold>world</>`. */
  lemma HelloWorld(decode: string -> string)
    requires decode("<p>Hello <b>world</b></p>") == "<p>Hello <b>world</b></p>"
    ensures CreateParagraph(decode, "<p>Hello <b>world</b></p>") == "Hello <bold>world</>"
  {
    HelloSpelling();
    BoldParagraph(decode, "Hello ", "world");
  }

  /** No closing tag starts inside plain text, nor where it runs into a final `</p>`. */
  lemma PlainNoCloseBefore(a: string)
    requires Plain(a)
    ensures NoCloseBefore(a + Paragraphs.Close, |a|)
  {
    forall k | 0 <= k < |a|
      ensures !CiAt(a + Paragraphs.Close, k, Paragraphs.Close)
    {
      assert (a + Paragraphs.Close)[k] == a[k];
      PlainNoClose(a + Paragraphs.Close, k);
    }
  }

  /** The plain example as tokens: the two paragraph tags vanish and `a` stays. */
  function PlainToks(a: string): (r: seq<string>) {
    ["<p>", a, "</p>"]
  }

  /** The plain example's tokens spell it, fit, and translate to `["", a, ""]`. */
  lemma PlainTokens(a: string)
    requires Plain(a)
    ensures Concat(PlainToks(a)) == "<p>" + a + "</p>"
    ensures TokensFit(PlainToks(a), StylePairs)
    ensures TranslateAll(PlainToks(a), StylePairs) == ["", a, ""]
  {
    var toks := PlainToks(a);
    assert Concat(toks[2..]) == "</p>";
    assert Concat(toks[1..]) == a + "</p>";
    BoldPatterns();
    PlainFits(a);
    PatternFits(8);
    PatternFits(9);
    PlainTranslates(a);
    StylePatternsTranslate(8);
    StylePatternsTranslate(9);
  }

  /** `<p>a</p>`, with a plain non-empty single-line `a` and nothing to unescape, becomes `a`. */
  lemma PlainParagraph(decode: string -> string, a: string)
    requires Plain(a) && |a| > 0 && '\n' !in a
    requires decode("<p>" + a + "</p>") == "<p>" + a + "</p>"
    ensures CreateParagraph(decode, "<p>" + a + "</p>") == a
  {
    PlainNoCloseBefore(a);
    Paragraphs.WrappedIsMatch(a);
    WholeMatchStyled(decode, "<p>" + a + "</p>");
    PlainTokens(a);
    var out := ["", a, ""];
    assert Concat(out[2..]) == "";
    assert Concat(out) == a;
    AnchorFacts.PlainIsSafe(a);
    StyleOfTokens(decode, PlainToks(a));
  }

  /** `<p>Bye</p>` prints as `Bye`. */
  lemma Bye(decode: string -> string)
    requires decode("<p>Bye</p>") == "<p>Bye</p>"
    ensures CreateParagraph(decode, "<p>Bye</p>") == "Bye"
  {
    assert "<p>" + "Bye" + "</p>" == "<p>Bye</p>";
    PlainParagraph(decode, "Bye");
  }

  /** `<p></p>` is no paragraph: the lazy `.+?` needs at least one character. */
  lemma EmptyParagraph(decode: string -> string)
    ensures Paragraphs.FindAll("<p></p>") == []
    ensures CreateParagraph(decode, "<p></p>") == ""
  {
    Paragraphs.FindAllEmptyIffNoMatch("<p></p>");
  }
}
