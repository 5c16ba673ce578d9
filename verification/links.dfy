/**
 * Choosing a link for the random-article mode (`getRandomArticle`): the
 * sanitized page's full anchors are listed in document order, an empty list
 * is an error, and the chosen anchor is rewritten with `"$1"` to its href.
 * The random choice is a parameter.
 */
module Links {
  import opened Wrappers
  import opened Anchors
  import opened AnchorFacts
  import opened Occurrences

  /** The error message returned when a page has no anchors. */
  const NoLinks: string := "did not find any links on the url"

  /**
   * The URL of the `pick`-th anchor of `body`; `pick` plays the role of
   * `rand.Intn(len(links))`, so it is below the number of anchors whenever
   * there is one.
   */
  function SelectLink(body: string, pick: nat): (r: Result<string, string>)
    requires FindAll(body, FullAnchor) == [] || pick < |FindAll(body, FullAnchor)|
    ensures r.Err? <==> forall k :: 0 <= k < |body| ==> MatchAt(body[k..], 0, FullAnchor).None?
    ensures r.Err? ==> r.error == NoLinks
    ensures r.Ok? ==> r.value == FindOccurrences(body, FullAnchor)[pick].href
  {
    var links := FindAll(body, FullAnchor);
    if |links| <= 0 then Err(NoLinks)
    else
      OccurrencesSelfMatch(body, FullAnchor);
      HrefOfOccurrence(FindOccurrences(body, FullAnchor)[pick], FullAnchor);
      Ok(ReplaceAll(links[pick], FullAnchor, HrefOnly))
  }

  /**
   * On a page whose only anchor is one canonical `<a href="h">t</a>`, the
   * only possible pick selects it and the result is its href.
   */
  lemma SingleLinkSelected(pre: string, h: string, t: string, post: string, pick: nat)
    requires SafeText(pre) && SafeText(post) && PlainHref(h) && PlainText(t)
    requires FindAll(pre + AnchorText(h, t) + post, FullAnchor) == []
      || pick < |FindAll(pre + AnchorText(h, t) + post, FullAnchor)|
    ensures pick == 0 && SelectLink(pre + AnchorText(h, t) + post, pick) == Ok(h)
  {
    SingleAnchor(pre, h, t, post);
  }
}
