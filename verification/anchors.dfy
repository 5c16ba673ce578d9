/**
 * The two anchor patterns of tarsier.go and `ReplaceAllString` /
 * `FindAllString` over them:
 *   open tag      `(?mi)<a.+?href\=\"(.+?)\".*?\>`
 *   full anchor   `(?mi)<a.+?href\=\"(.+?)\".*?\>(.*?)\<\/a\>`
 * Every lazy element is followed by something that only has to occur later
 * on the same line, so whenever some choice of lengths matches, the shortest
 * choice at each step matches too; that is the choice leftmost-first matching
 * prefers, and the scanner below makes it directly. `AnchorSpec` proves this
 * against the ways described in `AnchorWays`.
 */
module Anchors {
  import opened Wrappers
  import opened Scan

  /** Which of the two patterns is being matched. */
  datatype Rule = OpenTag | FullAnchor

  /** Positions inside an opening tag: the href is `s[hrefStart..hrefEnd]`, the tag ends before `end`. */
  datatype Tag = Tag(hrefStart: nat, hrefEnd: nat, end: nat)

  /** One match: the href capture, the display-text capture and the end of the match. */
  datatype Match = Match(href: string, text: string, end: nat)

  const Lead: string := "<a"
  const HrefAttr: string := "href=\""
  const Quote: string := "\""
  const TagEnd: string := ">"
  const Close: string := "</a>"

  /** Where the href value begins when `<a.+?href\=\"` matches at `i`. */
  function HrefStart(s: string, i: nat): (r: Option<nat>)
    ensures r.Some? ==> i + 9 <= r.value <= |s|
  {
    if CiAt(s, i, Lead) && i + 2 < |s| && s[i + 2] != '\n' then
      NextCiFound(s, i + 3, HrefAttr);
      match NextCi(s, i + 3, HrefAttr)
      case Some(h) => Some(h + 6)
      case None => None
    else None
  }

  /** Where the href value ends: the lazy `(.+?)` takes at least one character and stops at the next `"`. */
  function HrefEnd(s: string, u: nat): (r: Option<nat>)
    ensures r.Some? ==> u < r.value < |s| && s[r.value] == '"'
  {
    if u < |s| && s[u] != '\n' then
      var q := NextCi(s, u + 1, Quote);
      NextCiFound(s, u + 1, Quote);
      if q.Some? then
        assert Lower(s[q.value + 0]) == Quote[0];
        LowerOfSymbol(s[q.value], '"');
        q
      else q
    else None
  }

  /** The end of the opening tag: the lazy `.*?` after the closing quote stops at the next `>`. */
  function TagClose(s: string, q: nat): (r: Option<nat>)
    ensures r.Some? ==> q + 1 < r.value <= |s| && s[r.value - 1] == '>'
  {
    NextCiFound(s, q + 1, TagEnd);
    match NextCi(s, q + 1, TagEnd)
    case Some(g) =>
      assert Lower(s[g + 0]) == TagEnd[0];
      LowerOfSymbol(s[g], '>');
      Some(g + 1)
    case None => None
  }

  /** `<a.+?href\=\"(.+?)\".*?\>` at position `i`. */
  function OpenTagAt(s: string, i: nat): (r: Option<Tag>)
    ensures r.Some? ==>
      && i + 9 <= r.value.hrefStart < r.value.hrefEnd < r.value.end - 1 < |s|
      && s[r.value.hrefEnd] == '"' && s[r.value.end - 1] == '>'
  {
    match HrefStart(s, i)
    case None => None
    case Some(u) =>
      match HrefEnd(s, u)
      case None => None
      case Some(q) =>
        match TagClose(s, q)
        case None => None
        case Some(e) => Some(Tag(u, q, e))
  }

  /** The match of `rule` at position `i`, if one starts there. */
  function MatchAt(s: string, i: nat, rule: Rule): (r: Option<Match>)
    ensures r.Some? ==> i + 12 <= r.value.end <= |s|
  {
    match OpenTagAt(s, i)
    case None => None
    case Some(t) =>
      if rule == OpenTag then Some(Match(s[t.hrefStart..t.hrefEnd], "", t.end))
      else
        NextCiBound(s, t.end, Close);
        match NextCi(s, t.end, Close)
        case None => None
        case Some(e) =>
          Some(Match(s[t.hrefStart..t.hrefEnd], s[t.end..e], e + 4))
  }

  /** A match starts with `<a` and, for a full anchor, ends with `</a>`, in either case. */
  lemma MatchAtEnds(s: string, i: nat, rule: Rule)
    ensures MatchAt(s, i, rule).Some? ==> CiAt(s, i, Lead)
    ensures MatchAt(s, i, rule).Some? && rule == FullAnchor ==> CiAt(s, MatchAt(s, i, rule).value.end - 4, Close)
  {
    match OpenTagAt(s, i)
    case None =>
    case Some(t) =>
      NextCiFound(s, t.end, Close);
  }

  /** The replacement templates used with the anchor patterns. */
  datatype Template =
    | TextThenHref   // "$2 (<blue>$1</>)"
    | BlueHref       // "<blue>$1</>"
    | HrefOnly       // "$1"

  /** `Regexp.Expand` of a template for one match. */
  function Expand(tmpl: Template, m: Match): (r: string) {
    match tmpl
    case TextThenHref => m.text + " (<blue>" + m.href + "</>)"
    case BlueHref => "<blue>" + m.href + "</>"
    case HrefOnly => m.href
  }

  /** No match of either pattern can start anywhere in `s`. */
  predicate NoLead(s: string) {
    forall k :: 0 <= k < |s| ==> !CiAt(s, k, Lead)
  }

  /**
   * `ReplaceAllString`: the leftmost match is replaced by its expansion and
   * the search resumes at its end; other characters are copied.
   */
  function ReplaceAll(s: string, rule: Rule, tmpl: Template): (r: string)
    decreases |s|
  {
    if |s| == 0 then ""
    else match MatchAt(s, 0, rule)
      case Some(m) => Expand(tmpl, m) + ReplaceAll(s[m.end..], rule, tmpl)
      case None => [s[0]] + ReplaceAll(s[1..], rule, tmpl)
  }

  /** Text in which no anchor can start comes back from either rewrite unchanged. */
  lemma {:induction false} NoLeadUnchanged(s: string, rule: Rule, tmpl: Template)
    requires NoLead(s)
    ensures ReplaceAll(s, rule, tmpl) == s
    decreases |s|
  {
    if |s| > 0 {
      assert !CiAt(s, 0, Lead);
      assert NoLead(s[1..]) by {
        forall k | 0 <= k < |s| - 1
          ensures !CiAt(s[1..], k, Lead)
        {
          if k + 3 <= |s| {
            CiAtWindow(s, 1, |s|, k, Lead);
          }
        }
      }
      NoLeadUnchanged(s[1..], rule, tmpl);
      assert s == [s[0]] + s[1..];
    }
  }

  /** One occurrence found by `FindAll`: the matched text and its two captures. */
  datatype Occurrence = Occurrence(matched: string, href: string, text: string)

  /** `FindAllSubmatch`: the successive leftmost matches in document order. */
  function FindOccurrences(s: string, rule: Rule): (r: seq<Occurrence>)
    ensures r == [] <==> forall k :: 0 <= k < |s| ==> MatchAt(s[k..], 0, rule).None?
    decreases |s|
  {
    if |s| == 0 then []
    else match MatchAt(s, 0, rule)
      case Some(m) => [Occurrence(s[..m.end], m.href, m.text)] + FindOccurrences(s[m.end..], rule)
      case None =>
        assert s[0..] == s;
        assert forall k :: 1 <= k < |s| ==> s[1..][k - 1..] == s[k..];
        FindOccurrences(s[1..], rule)
  }
}
