/**
 * `getArticle`: the page title is the title pattern's capture, and the
 * article is every paragraph match in document order, each followed by a
 * blank line, with the surrounding white space trimmed.
 */
module Extract {
  import opened Wrappers
  import opened Text
  import Paragraphs
  import Titles

  /** Separator written after each paragraph. */
  const Sep: string := "\n\n"

  /** Go's runtime error when the title pattern does not match and `[1]` indexes a nil slice. */
  datatype Panic = IndexOutOfRange

  /** The page as `getArticle` leaves it: the title it stores and the article it returns. */
  datatype Page = Page(title: string, article: string)

  /** `getArticle(s)`; the title is returned rather than stored in a package variable. */
  function GetArticle(s: string): (r: Result<Page, Panic>)
    ensures r.Err? <==> forall i: nat :: !Titles.StartsMatch(s, i)
    ensures r.Ok? ==> Titles.Capture(s) == Some(r.value.title)
  {
    match Titles.Capture(s)
    case None => Err(IndexOutOfRange)
    case Some(t) => Ok(Page(t, TrimSpace(Terminated(Paragraphs.FindAll(s), Sep))))
  }

  /** The separator is white space. */
  lemma SepIsSpace()
    ensures forall j :: 0 <= j < |Sep| ==> IsSpace(Sep[j])
  {
    assert Sep[0] == '\n' && Sep[1] == '\n';
  }

  /** Every paragraph match neither begins nor ends with white space. */
  lemma MatchesUnpadded(s: string)
    ensures forall k :: 0 <= k < |Paragraphs.FindAll(s)| ==> Unpadded(Paragraphs.FindAll(s)[k])
  {
    var ms := Paragraphs.FindAll(s);
    Paragraphs.FindAllYieldsMatches(s);
    forall k | 0 <= k < |ms|
      ensures Unpadded(ms[k])
    {
      Paragraphs.MatchTextEnds(ms[k]);
    }
  }

  /**
   * Trimming removes exactly the blank line after the last paragraph: the
   * article is the matches joined by one blank line each.
   */
  lemma ArticleIsJoin(s: string)
    requires GetArticle(s).Ok?
    ensures GetArticle(s).value.article == Join(Paragraphs.FindAll(s), Sep)
  {
    MatchesUnpadded(s);
    SepIsSpace();
    TrimTerminated(Paragraphs.FindAll(s), Sep);
  }

  /** The article is empty exactly when the page has no paragraph match. */
  lemma ArticleEmptyIffNoParagraph(s: string)
    requires GetArticle(s).Ok?
    ensures GetArticle(s).value.article == "" <==> Paragraphs.FindAll(s) == []
  {
    ArticleIsJoin(s);
    MatchesUnpadded(s);
    if Paragraphs.FindAll(s) != [] {
      JoinEnds(Paragraphs.FindAll(s), Sep);
    }
  }

  /**
   * The title is the inner text of the leftmost title match, running to the
   * last `</title>` on its line.
   */
  lemma TitleIsLeftmostGreedy(s: string, i: nat, k: nat)
    requires Titles.IsMatch(s, i, k)
    requires forall i': nat :: i' < i ==> !Titles.StartsMatch(s, i')
    ensures GetArticle(s).Ok? && GetArticle(s).value.title == s[i + 7..k]
  {
    Titles.CaptureIsLeftmostGreedy(s, i, k);
  }
}
