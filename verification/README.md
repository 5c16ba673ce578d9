# tarsier in Dafny

tarsier is a terminal article reader. It downloads a web page and takes the
page title from the `<title>` element. It collects every `<p>…</p>` paragraph
of the page into an article, sanitizes that article, and prints each paragraph
with colour markup:

- emphasis tags become colour tokens;
- the paragraph tags are dropped;
- each link becomes its text followed by its URL in blue.

In random mode it instead picks one of the page's links and reads the article
at that URL.

This project models the text-processing core of `tarsier.go` and proves what it
does. The core is:

- the four regular expressions;
- `getArticle`;
- `createParagraph`;
- the per-paragraph printing loop of `main`;
- the link choice of `getRandomArticle`.

Modules, in dependency order:

| module | file | what it models |
|---|---|---|
| `Wrappers` | wrappers.dfy | `Option` and `Result` |
| `Scan` | scan.dfy | case-insensitive literal matching; lazy `.*?` (`NextCi`) and greedy `.*` (`LastCi`) runs up to a literal, which never cross a newline |
| `Text` | text.dfy | `strings.Replace(…, -1)`, `strings.TrimSpace`, the separator loop and `strings.Join` |
| `Titles` | titles.dfy | `regTitle` and `FindStringSubmatch(…)[1]` |
| `Paragraphs` | paragraphs.dfy | `regP` and `FindAllString` |
| `Extract` | extract.dfy | `getArticle` |
| `Anchors` | anchors.dfy | `regATag1`, `regATag2`, `ReplaceAllString` and `FindAllString` over them |
| `AnchorWays` | anchor_spec.dfy | what the anchor patterns mean, independent of the scanner: the ways a pattern can match and the one leftmost-first matching prefers |
| `AnchorSpec` | anchor_spec.dfy | the anchor scanners take exactly the preferred way |
| `AnchorFacts` | anchor_facts.dfy | locality of the anchor scanners; their captures on the canonical `<a href="U">L</a>` shape |
| `Occurrences` | occurrences.dfy | `FindAllString` over an anchor pattern: the leftmost, non-overlapping occurrences, each a complete match of its own text |
| `Links` | links.dfy | link selection in `getRandomArticle` |
| `Format` | format.dfy | `createParagraph` and the printing loop |
| `Examples` | examples.dfy | worked paragraphs |

Every regular expression is described twice: a reference says what a match
is, and a scanner finds it. The scanners are proved to find exactly the
reference matches.

- For the title and paragraph patterns, the reference is a predicate on
  spans, `IsMatch`. The leftmost, non-overlapping matches are described by
  `Paragraphs.Leftmost`.
- For the two anchor patterns, the reference is `AnchorWays`. A way fixes
  where each run of the pattern stops: at `href="`, at the closing quote, at
  `>` and, for a full anchor, at `</a>`. Every run is lazy, so leftmost-first
  matching tries the ways in lexicographic order of these stop positions and
  reports the first that succeeds. A way that stops every run at or before
  every other way is that first way. `AnchorSpec` proves that the scanner's
  choice is such a least way whenever any way exists.
- `Occurrences.Leftmost` builds the leftmost, non-overlapping occurrences of
  an anchor pattern from `AnchorWays` alone.

Four points about Go's RE2 semantics shape the model:

- None of the patterns sets the `s` flag, so `.` never matches a newline. The
  `m` flag only affects `^` and `$`, which no pattern uses.
- The title pattern carries the `U` flag, which swaps greedy and lazy. Its
  `(.+?)` is therefore greedy and runs to the last `</title>` on the line.
  The paragraph and anchor patterns are lazy and stop at the first closing
  literal.
- The `i` flag folds case. The only letters in the patterns are
  t, i, l, e, p, a, h, r and f. None of them has a non-ASCII case partner in
  Go's folding tables, so ASCII folding is exact.
- In an anchor pattern, every lazy element is followed by something that only
  has to appear later on the same line. So if any choice of lengths matches,
  the shortest choice at each step matches too. Leftmost-first matching prefers
  that choice, and the scanner makes it directly, with no backtracking.

The ten `strings.Replace` calls of `createParagraph` are case-sensitive and each
runs once, in source order. The paragraph pattern, by contrast, ignores case. So
`<P>x</P>` is a paragraph, and its tags are left in place by the replacements.
The model keeps this behaviour.

## Model

| member | source | states |
|---|---|---|
| Scan.NextCiFirst | tarsier.go:25-27 | a lazy run up to a literal stops at the first occurrence reachable without crossing a newline; when it finds nothing, no occurrence is reachable |
| Scan.LastCiLast | tarsier.go:24 | a greedy run up to a literal stops at the last reachable occurrence, with no reachable occurrence after it; when it finds nothing, none is reachable |
| Titles.MatchAt | tarsier.go:24 | a title match starting at a position ends at exactly one closing tag: the last `</title>` on the line, at least one character after `<title>` |
| Titles.FirstFrom | tarsier.go:24 | the first title match at or after a position; no match starts before it, and none starts anywhere when it reports none |
| Titles.Capture | tarsier.go:143 | `FindStringSubmatch(s)[1]` has a value exactly when some title match exists; otherwise indexing the nil result fails |
| Titles.CaptureIsLeftmostGreedy | tarsier.go:24 | the capture is the inner text of the leftmost match, running to the last closing tag on its line |
| Paragraphs.MatchAt | tarsier.go:25 | a paragraph match at a position opens with `<p>` in any case, holds at least one character and no newline, and ends at the first `</p>` after that character; the match is unique |
| Paragraphs.SpansFrom | tarsier.go:146 | the matches are the leftmost ones in document order: the search resumes where each match ends, and no match starts in the gaps or after the last one |
| Paragraphs.LeftmostUnique | tarsier.go:146 | the list of leftmost matches is unique, so it is the answer of `FindAllString` |
| Paragraphs.FindAll | tarsier.go:146 | `regP.FindAllString(s, -1)`; it has no contract of its own: its answer is the texts of `SpansFrom`, which `LeftmostUnique` pins down, and `FindAllYieldsMatches` and `FindAllEmptyIffNoMatch` describe it |
| Paragraphs.FindAllEmptyIffNoMatch | tarsier.go:154-157 | there are no matches exactly when no match starts anywhere in the text |
| Paragraphs.MatchIsLocal | tarsier.go:25 | whether a span is a match depends only on the characters it covers |
| Paragraphs.FindAllYieldsMatches | tarsier.go:146 | every string returned is, as a whole, a match |
| Paragraphs.FindAllOfMatch | tarsier.go:82-83 | a string that is one whole match has exactly one match, itself, so the printing loop hands each paragraph to `createParagraph` intact |
| Paragraphs.WrappedIsMatch | tarsier.go:25 | `<p>x</p>` is one whole match when `x` is a non-empty line in which no `</p>` starts before the final one |
| Paragraphs.MatchTextEnds | tarsier.go:25 | a match is at least 8 characters long, begins with `<` and ends with `>` |
| Text.ReplaceAll | tarsier.go:161 | `strings.Replace` returns a string in which the pattern does not occur unchanged |
| Text.ReplaceLeavesNoTag | tarsier.go:161-168 | replacing one tag by another leaves no occurrence of the replaced tag, and creates no tag that clashes with no replacement and was absent before |
| Text.ReplaceTokens | tarsier.go:161-170 | on text made of plain runs and whole tags, one `strings.Replace` substitutes the matching tags token by token |
| Text.IsSpace | tarsier.go:150 | the white-space set of Go's `unicode.IsSpace`: the six ASCII spaces, U+0085, U+00A0 and the Unicode White_Space code points |
| Text.TrimLeft | tarsier.go:150 | the result is a suffix, everything dropped is white space, and it does not start with white space |
| Text.TrimRight | tarsier.go:150 | the result is a prefix, everything dropped is white space, and it does not end with white space |
| Text.TrimSpace | tarsier.go:150 | `strings.TrimSpace` as `TrimLeft` after `TrimRight`; it has no contract of its own, and `TrimTerminated` states its effect on the builder's output |
| Text.Join | tarsier.go:145-150 | `strings.Join`; it has no contract of its own, and `TerminatedIsJoinPlusSep` and `JoinEnds` describe it |
| Text.Terminated | tarsier.go:145-149 | the builder loop writing each match and then the separator; it has no contract of its own, and `TerminatedIsJoinPlusSep` describes it |
| Text.TerminatedIsJoinPlusSep | tarsier.go:145-149 | writing each match followed by the separator gives the matches joined by the separator, plus one trailing separator |
| Text.JoinEnds | tarsier.go:145-150 | a join of parts that neither begin nor end with white space neither begins nor ends with white space |
| Text.TrimTerminated | tarsier.go:150 | `TrimSpace` of the builder's output removes exactly the final white-space separator |
| Extract.GetArticle | tarsier.go:142-151 | `getArticle` fails (Go's index panic) exactly when there is no title match; otherwise its title is the title capture |
| Extract.MatchesUnpadded | tarsier.go:146-148 | no paragraph match begins or ends with white space |
| Extract.ArticleIsJoin | tarsier.go:145-150 | the article is the paragraph matches in document order, joined by one blank line each |
| Extract.ArticleEmptyIffNoParagraph | tarsier.go:145-150 | the article is empty exactly when the page has no paragraph match |
| Extract.TitleIsLeftmostGreedy | tarsier.go:143 | the stored title is the inner text of the leftmost title match, up to the last `</title>` on its line |
| Anchors.HrefStart | tarsier.go:26 | a found href value starts at least 9 characters after the position; `AnchorSpec.HrefStartLeast` states which `href="` the run stops at |
| Anchors.HrefEnd | tarsier.go:26 | a found closing quote lies after the href's first character; `AnchorSpec.HrefEndLeast` states that it is the first reachable one |
| Anchors.TagClose | tarsier.go:26 | a found tag end lies after the quote; `AnchorSpec.TagCloseLeast` states that it follows the first reachable `>` |
| Anchors.OpenTagAt | tarsier.go:26 | the href start, the closing quote and the tag end come in this order within the text; `AnchorSpec.OpenTagAtLeast` states that the choice is the least way |
| Anchors.MatchAt | tarsier.go:26-27 | a match lies within the text and is at least 12 characters long; `AnchorSpec.MatchAtIsPreferred` states that it is the preferred match |
| AnchorSpec.HrefStartLeast | tarsier.go:26 | `<a.+?href\=\"` stops at the first `href="` reachable on the line after at least one character; it fails only when there is none |
| AnchorSpec.HrefEndLeast | tarsier.go:26 | the href capture `(.+?)` stops at the first `"` reachable on the line after at least one character; it fails only when there is none |
| AnchorSpec.TagCloseLeast | tarsier.go:26 | `.*?\>` after the quote stops at the first `>` reachable on the line; it fails only when there is none |
| AnchorSpec.OpenTagAtLeast | tarsier.go:26 | the opening-tag scanner's choice is a way for the pattern to match, and it stops every run at or before every other way does; it fails only when no way exists |
| AnchorSpec.LeastTagIsScan | tarsier.go:26 | the least way for the opening-tag pattern exists exactly when the scanner succeeds, and it is the scanner's choice |
| AnchorSpec.OpenTagMatchPreferred | tarsier.go:26 | the opening-tag scanner reports exactly the match leftmost-first matching prefers, and reports none exactly when the pattern cannot match |
| AnchorSpec.FullAnchorLeast | tarsier.go:27 | the full-anchor scanner's choice is a way for the pattern to match, and it stops every run, `</a>` included, at or before every other way does; it fails only when no way exists |
| AnchorSpec.LeastFullIsScan | tarsier.go:27 | the least way for the full-anchor pattern exists exactly when the scanner succeeds, and it is the scanner's choice |
| AnchorSpec.FullMatchPreferred | tarsier.go:27 | the full-anchor scanner reports exactly the match leftmost-first matching prefers, and reports none exactly when the pattern cannot match |
| AnchorSpec.MatchAtIsPreferred | tarsier.go:26-27 | for either anchor pattern, the scanner's match is exactly the preferred one |
| AnchorSpec.MatchAtIffMatchable | tarsier.go:26-27 | the scanner finds a match at a position exactly when some way makes the pattern match there |
| Anchors.MatchAtEnds | tarsier.go:26-27 | a match starts with `<a` in any case, and a full-anchor match ends with `</a>` in any case |
| Anchors.ReplaceAll | tarsier.go:171-172 | `ReplaceAllString`; it has no contract of its own, and its meaning on every text is `Occurrences.ReplaceIsRewrite` |
| Anchors.NoLeadUnchanged | tarsier.go:171-172 | text in which no `<a` starts passes through either anchor rewrite unchanged |
| Anchors.FindOccurrences | tarsier.go:93 | there are no occurrences exactly when no match starts anywhere in the text |
| AnchorFacts.Peel | tarsier.go:171-172 | text in which no anchor can start passes through an anchor rewrite unchanged, whatever follows it |
| AnchorFacts.SafeUnchanged | tarsier.go:171-172 | a rewrite leaves text in which no anchor can start unchanged |
| AnchorFacts.CanonicalFullMatch | tarsier.go:27 | on `<a href="h">t</a>` followed by anything, the full-anchor pattern captures exactly `h` and `t` and ends after `</a>` |
| AnchorFacts.RewriteFullAnchor | tarsier.go:171 | a canonical anchor becomes `t (<blue>h</>)`; the text around it is copied or rewritten independently |
| AnchorFacts.RewriteOpenTag | tarsier.go:172 | a canonical opening tag becomes `<blue>h</>`; the text around it is copied or rewritten independently |
| Occurrences.ReportedIffMatch | tarsier.go:26-27 | an occurrence is reported at the front of a text exactly when it is the preferred match there |
| Occurrences.FindLeftmost | tarsier.go:93 | the occurrences found are the leftmost, non-overlapping preferred matches: each starts at the first position where the pattern can match, and the search resumes where it ends |
| Occurrences.LeftmostUnique | tarsier.go:93 | only one list of occurrences is leftmost and non-overlapping |
| Occurrences.FindIsLeftmost | tarsier.go:93 | a list of occurrences is leftmost and non-overlapping exactly when it is the list found |
| Occurrences.FindAll | tarsier.go:93 | `FindAllString` returns the texts of the leftmost, non-overlapping occurrences; each text is, as a whole, one match; the result is empty exactly when the pattern cannot match anywhere |
| Occurrences.ReplaceRewrites | tarsier.go:171-172 | the rewrite meets the reference: where the pattern can match, the output holds the expansion of the preferred match and goes on after it; elsewhere it copies one character |
| Occurrences.RewriteUnique | tarsier.go:171-172 | only one output meets the rewrite reference |
| Occurrences.ReplaceIsRewrite | tarsier.go:171-172 | an output meets the rewrite reference exactly when it is what `ReplaceAllString` returns |
| Occurrences.OccurrencesSelfMatch | tarsier.go:93 | every occurrence that `FindAllString` reports is a complete match of its own text, with the same captures |
| Occurrences.HrefOfOccurrence | tarsier.go:99 | rewriting a reported anchor with `"$1"` yields exactly its href |
| Occurrences.FindPeel | tarsier.go:93 | text in front in which no anchor can start adds no occurrences |
| Occurrences.SingleAnchor | tarsier.go:93 | a page whose only anchor is one canonical anchor has exactly that one occurrence |
| Links.SelectLink | tarsier.go:93-99 | there is an error with the source's message exactly when the page has no full anchor; otherwise the result is the href of the chosen anchor |
| Links.SingleLinkSelected | tarsier.go:93-99 | with a single canonical anchor, the only possible pick is 0 and yields its href |
| Format.CreateParagraph | tarsier.go:153-157 | the result is empty when the text has no paragraph match |
| Format.FirstMatchOnly | tarsier.go:154-159 | only the first paragraph match counts: formatting that match alone gives the same line |
| Format.WholeMatchStyled | tarsier.go:153-172 | a string that is one whole match is styled in full |
| Format.Render | tarsier.go:82-85 | the loop prints one line per paragraph match of the sanitized article |
| Format.RenderStylesEachMatch | tarsier.go:82-85 | the k-th printed line is the styled k-th paragraph match |
| Format.ReplaceEach | tarsier.go:161-170 | the chain of `strings.Replace` calls; it has no contract of its own, and `ReplaceEachClears`, `ReplaceEachNoop`, `ReplaceEachAppend` and `ReplaceEachTokens` describe it |
| Format.MapTags | tarsier.go:161-168 | the eight emphasis replacements; it has no contract of its own, and `MapTagsLeavesNoTag` and `MapTagsIdempotent` describe it |
| Format.StripParagraphTags | tarsier.go:169-170 | the two paragraph-tag replacements; it has no contract of its own, and `ReplaceEachAppend` and `StyleOfTokens` describe it |
| Format.RewriteAnchors | tarsier.go:171-172 | the full-anchor pass, then the opening-tag pass; it has no contract of its own, and `AnchorBecomesTextThenHref`, `LoneOpenTagBecomesBlue` and `Occurrences.ReplaceIsRewrite` describe it |
| Format.Style | tarsier.go:159-172 | everything `createParagraph` does to its paragraph; it has no contract of its own, and `StyleOfTokens` and `WholeMatchStyled` describe it |
| Format.ReplaceEachClears | tarsier.go:161-168 | after a chain of tag replacements, none of the replaced tags occurs, and no absent tag has been created |
| Format.ReplaceEachNoop | tarsier.go:161-168 | replacements whose patterns do not occur change nothing |
| Format.MapTagsLeavesNoTag | tarsier.go:161-168 | after the eight replacements, none of `<em>`, `</em>`, `<strong>`, `</strong>`, `<b>`, `</b>`, `<code>`, `</code>` is left |
| Format.MapTagsIdempotent | tarsier.go:161-168 | applying the eight replacements twice is the same as once |
| Format.ReplaceEachAppend | tarsier.go:161-170 | running the tag replacements and then the paragraph-tag replacements is the single chain of all ten |
| Format.ReplaceEachTokens | tarsier.go:161-170 | on text made of plain runs and whole tags, the chain of replacements translates each tag token separately |
| Format.AnchorBecomesTextThenHref | tarsier.go:171-172 | a canonical anchor between plain texts becomes `t (<blue>h</>)`, and the opening-tag pass then has nothing left to do |
| Format.LoneOpenTagBecomesBlue | tarsier.go:171-172 | a canonical opening tag followed by text without `<`, so without any `</a>`, is left alone by the full-anchor rewrite and then becomes `<blue>h</>`; the text around it is unchanged |
| Format.OpenTagFirstStrandsText | tarsier.go:171-172 | running the two rewrites in the other order would give `<blue>h</>t</a>`, stranding the text and the closing tag |
| Format.StyleOfTokens | tarsier.go:159-172 | on a paragraph made of plain runs and known tags, with nothing to unescape, the output is each token translated by the ten replacements |
| Examples.BoldParagraph | tarsier.go:153-172 | `<p>a<b>b</b></p>` with plain one-line words becomes `a<bold>b</>` |
| Examples.HelloWorld | tarsier.go:153-172 | `<p>Hello <b>world</b></p>` becomes `Hello <bold>world</>` |
| Examples.PlainParagraph | tarsier.go:153-172 | `<p>a</p>` with a plain, non-empty one-line `a` becomes `a` |
| Examples.Bye | tarsier.go:153-172 | `<p>Bye</p>` becomes `Bye` |
| Examples.EmptyParagraph | tarsier.go:154-157 | `<p></p>` has no paragraph match, so `createParagraph` returns `""` |

## Left out

- `main`'s flag handling, its error message and `os.Exit` on an empty article, and `flag.Usage`: these are command-line plumbing. `Extract.ArticleEmptyIffNoParagraph` states when the article is empty.
- `getBody` and the HTTP request: this is network I/O. `Links.SelectLink` returns the URL that would be fetched.
- The bluemonday sanitizer (`buildParsePolicy`, `Sanitize`): this is an external library. `Format.Render` takes the already sanitized text. The lemmas that give literal rewrite results require the canonical anchor shape `<a href="U">L</a>` that the sanitizer writes. These are `AnchorFacts.CanonicalFullMatch`, `AnchorFacts.RewriteFullAnchor`, `AnchorFacts.RewriteOpenTag`, `Occurrences.SingleAnchor`, `Links.SingleLinkSelected`, `Format.AnchorBecomesTextThenHref`, `Format.LoneOpenTagBecomesBlue` and `Format.OpenTagFirstStrandsText`. The lemmas of `AnchorSpec` and `Occurrences.FindIsLeftmost` and `Occurrences.ReplaceIsRewrite` hold for every text.
- `html.UnescapeString`: this is an external library. It is the parameter `decode` of `Format.CreateParagraph`. The worked examples require `decode` to return their paragraph unchanged, which is what `html.UnescapeString` does on text without `&`.
- `rand.Seed` and `rand.Intn`: randomness becomes the parameter `pick` of `Links.SelectLink`. Its precondition is the range that `rand.Intn` guarantees.
- Printing, `color.Println` and the `<cyan>` title line: these are output. The model returns the strings that would be printed.
- The package variable `title`: `Extract.GetArticle` returns the title in its result instead of assigning a global.
- Go's panic when the title pattern does not match: this is modelled as the error value `Extract.IndexOutOfRange`, not as a crash.
- Byte-level strings: a Go string is a byte sequence, while the model works on code points. The two agree on valid UTF-8 input. Go's decoding of invalid UTF-8 to U+FFFD during matching is not modelled.
- Literal output strings for non-canonical anchors: an anchor rewrite is spelled out as a concrete string, such as `t (<blue>h</>)`, only for the canonical shape. For every other shape, `Occurrences.ReplaceIsRewrite` describes the output through the preferred match at each occurrence, and `AnchorSpec.MatchAtIsPreferred` gives that match's captures.
- Anchors.HrefStart: its own contract gives only a bound. That the run stops at the first reachable `href="`, and fails only when there is none, is `AnchorSpec.HrefStartLeast`. It is kept as a lemma so that the many proofs that call the scanner do not carry it.
- Anchors.HrefEnd: its own contract gives only a bound. The first-quote promise is `AnchorSpec.HrefEndLeast`, kept as a lemma for the same reason.
- Anchors.TagClose: its own contract gives only a bound. The first-`>` promise is `AnchorSpec.TagCloseLeast`, kept as a lemma for the same reason.
- Anchors.OpenTagAt: its own contract orders the positions only. That it takes the least way is `AnchorSpec.OpenTagAtLeast`, and its match is described by `AnchorSpec.OpenTagMatchPreferred`.
- Anchors.MatchAt: its own contract gives only a bound. Its captures and its stop at the first reachable `</a>` are `AnchorSpec.MatchAtIsPreferred` and `AnchorSpec.FullAnchorLeast`.
- Examples.BoldParagraph: this is proved for words without `<` or newline, and only for a `decode` that returns the paragraph unchanged. This covers the literal examples. Paragraphs with arbitrary nested markup are described only by `Format.StyleOfTokens`.
