/**
 * The paragraph pattern `(?mi)(\<p\>.+?\<\/p\>)` and its `FindAllString`:
 * a match opens with `<p>` in either case, holds at least one character and
 * no newline, and closes at the first `</p>` after that character.
 */
module Paragraphs {
  import opened Wrappers
  import opened Scan

  const Open: string := "<p>"
  const Close: string := "</p>"

  /**
   * Reference meaning of a match: `s[i..j]` is a match of the paragraph pattern
   * that starts at `i`, with the lazy `.+?` stopping at the first closing tag.
   */
  ghost predicate IsMatch(s: string, i: nat, j: nat) {
    && CiAt(s, i, Open) && i + 8 <= j <= |s| && CiAt(s, j - 4, Close)
    && '\n' !in s[i + 3..j - 4]
    && forall k :: i + 4 <= k < j - 4 ==> !CiAt(s, k, Close)
  }

  /** Some match of the pattern starts at `i`. */
  ghost predicate StartsMatch(s: string, i: nat) {
    exists j: nat :: IsMatch(s, i, j)
  }

  /** The end of the match that starts at `i`, if any; a start has at most one match. */
  function MatchAt(s: string, i: nat): (r: Option<nat>)
    ensures r.Some? ==> IsMatch(s, i, r.value)
    ensures forall j: nat :: IsMatch(s, i, j) ==> r == Some(j)
  {
    if CiAt(s, i, Open) && i + 3 < |s| && s[i + 3] != '\n' then
      NextCiFirst(s, i + 4, Close);
      match NextCi(s, i + 4, Close)
      case Some(k) =>
        assert s[i + 3..k] == [s[i + 3]] + s[i + 4..k];
        Some(k + 4)
      case None => None
    else None
  }

  /** A match as a pair of positions, `start` inclusive and `end` exclusive. */
  datatype Span = Span(start: nat, end: nat)

  /**
   * Reference meaning of `FindAll` from `pos`: each span is the match at the
   * leftmost position where one starts, the search resuming where it ended,
   * and no match starts in the gaps or after the last span.
   */
  ghost predicate Leftmost(s: string, pos: nat, spans: seq<Span>)
    decreases |spans|
  {
    if spans == [] then forall k :: pos <= k < |s| ==> !StartsMatch(s, k)
    else
      && pos <= spans[0].start
      && IsMatch(s, spans[0].start, spans[0].end)
      && (forall k :: pos <= k < spans[0].start ==> !StartsMatch(s, k))
      && Leftmost(s, spans[0].end, spans[1..])
  }

  /** Every span is a match lying at or after `pos`, in increasing order. */
  ghost predicate AllMatches(s: string, pos: nat, spans: seq<Span>) {
    && (forall k :: 0 <= k < |spans| ==> pos <= spans[k].start && IsMatch(s, spans[k].start, spans[k].end))
    && (forall k :: 0 <= k < |spans| - 1 ==> spans[k].end <= spans[k + 1].start)
  }

  /** `regP.FindAllString` from `pos`, as spans. */
  function SpansFrom(s: string, pos: nat): (r: seq<Span>)
    ensures Leftmost(s, pos, r)
    ensures AllMatches(s, pos, r)
    decreases |s| - pos
  {
    if pos >= |s| then []
    else match MatchAt(s, pos)
      case Some(j) =>
        var rest := SpansFrom(s, j);
        LeftmostCons(s, pos, j, rest);
        [Span(pos, j)] + rest
      case None =>
        var rest := SpansFrom(s, pos + 1);
        LeftmostSkip(s, pos, rest);
        rest
  }

  /** A match at `pos` followed by the leftmost matches from its end. */
  lemma LeftmostCons(s: string, pos: nat, j: nat, rest: seq<Span>)
    requires IsMatch(s, pos, j)
    requires Leftmost(s, j, rest) && AllMatches(s, j, rest)
    ensures Leftmost(s, pos, [Span(pos, j)] + rest) && AllMatches(s, pos, [Span(pos, j)] + rest)
  {
    var r := [Span(pos, j)] + rest;
    assert r[1..] == rest;
    assert forall k :: 1 <= k < |r| ==> r[k] == rest[k - 1];
  }

  /** No match at `pos`: the leftmost matches from `pos + 1` are those from `pos`. */
  lemma LeftmostSkip(s: string, pos: nat, rest: seq<Span>)
    requires MatchAt(s, pos).None?
    requires Leftmost(s, pos + 1, rest) && AllMatches(s, pos + 1, rest)
    ensures Leftmost(s, pos, rest) && AllMatches(s, pos, rest)
  {
    assert !StartsMatch(s, pos);
  }

  /** The FindAll answer is unique: two leftmost span lists from one position agree. */
  lemma {:induction false} LeftmostUnique(s: string, pos: nat, a: seq<Span>, b: seq<Span>)
    requires Leftmost(s, pos, a) && Leftmost(s, pos, b)
    ensures a == b
    decreases |a|
  {
    if a != [] && b != [] {
      if a[0].start < b[0].start {
        assert StartsMatch(s, a[0].start);
        assert false;
      } else if b[0].start < a[0].start {
        assert StartsMatch(s, b[0].start);
        assert false;
      } else {
        var _ := MatchAt(s, a[0].start);
        LeftmostUnique(s, a[0].end, a[1..], b[1..]);
      }
    } else if a != [] {
      assert StartsMatch(s, a[0].start);
      assert false;
    } else if b != [] {
      assert StartsMatch(s, b[0].start);
      assert false;
    }
  }

  /** The text of each span. */
  function Texts(s: string, spans: seq<Span>): (r: seq<string>)
    requires forall k :: 0 <= k < |spans| ==> spans[k].start <= spans[k].end <= |s|
    ensures |r| == |spans|
    ensures forall k :: 0 <= k < |spans| ==> r[k] == s[spans[k].start..spans[k].end]
    decreases |spans|
  {
    if spans == [] then [] else [s[spans[0].start..spans[0].end]] + Texts(s, spans[1..])
  }

  /** `regP.FindAllString(s, -1)`: every match, in document order. */
  function FindAll(s: string): (r: seq<string>)
  {
    var spans := SpansFrom(s, 0);
    Texts(s, spans)
  }

  /** FindAll is empty exactly when no match starts anywhere in `s`. */
  lemma FindAllEmptyIffNoMatch(s: string)
    ensures FindAll(s) == [] <==> forall k :: 0 <= k < |s| ==> !StartsMatch(s, k)
  {
    var spans := SpansFrom(s, 0);
    if spans != [] {
      assert StartsMatch(s, spans[0].start);
    }
  }

  /** `m` is, as a whole, one match of the paragraph pattern. */
  ghost predicate IsMatchText(m: string) {
    IsMatch(m, 0, |m|)
  }

  /** Whether a span is a match depends only on the characters it covers. */
  lemma MatchIsLocal(s: string, i: nat, j: nat)
    requires IsMatch(s, i, j)
    ensures IsMatchText(s[i..j])
  {
    var t := s[i..j];
    CiAtWindow(s, i, j, 0, Open);
    CiAtWindow(s, i, j, j - i - 4, Close);
    SliceOfSlice(s, i, j, 3, j - i - 4);
    forall k | 4 <= k < |t| - 4
      ensures !CiAt(t, k, Close)
    {
      CiAtWindow(s, i, j, k, Close);
      assert i + 4 <= i + k < j - 4;
      assert !CiAt(s, i + k, Close);
    }
  }

  /** Each result of FindAll is a match on its own. */
  lemma FindAllYieldsMatches(s: string)
    ensures forall k :: 0 <= k < |FindAll(s)| ==> IsMatchText(FindAll(s)[k])
  {
    var spans := SpansFrom(s, 0);
    forall k | 0 <= k < |spans|
      ensures IsMatchText(FindAll(s)[k])
    {
      MatchIsLocal(s, spans[k].start, spans[k].end);
    }
  }

  /**
   * A string that is itself a match has exactly one match, itself: the loop
   * over the article's paragraphs hands each one to the formatter whole.
   */
  lemma FindAllOfMatch(m: string)
    requires IsMatchText(m)
    ensures FindAll(m) == [m]
  {
    assert IsMatch(m, 0, |m|);
    assert MatchAt(m, 0) == Some(|m|);
    assert SpansFrom(m, 0) == [Span(0, |m|)];
    assert m[0..|m|] == m;
  }

  /**
   * `<p>`, then a non-empty line `x` in which no closing tag starts before
   * the final one, then `</p>`, is one whole match.
   */
  lemma WrappedIsMatch(x: string)
    requires |x| > 0 && '\n' !in x
    requires forall k :: 0 <= k < |x| ==> !CiAt(x + Close, k, Close)
    ensures IsMatchText(Open + x + Close)
  {
    var m := Open + x + Close;
    assert m == Open + (x + Close);
    forall j | 0 <= j < 3 ensures Lower(m[j]) == Open[j] {
      assert m[j] == Open[j];
    }
    forall j | 0 <= j < 4 ensures Lower(m[|m| - 4 + j]) == Close[j] {
      assert m[|m| - 4 + j] == Close[j];
    }
    assert m[3..|m| - 4] == x;
    forall k | 4 <= k < |m| - 4
      ensures !CiAt(m, k, Close)
    {
      CiAtShift(Open, x + Close, k - 3, Close);
    }
  }

  /** A match begins with `<` and ends with `>`. */
  lemma MatchTextEnds(m: string)
    requires IsMatchText(m)
    ensures |m| >= 8 && m[0] == '<' && m[|m| - 1] == '>'
  {
    assert Lower(m[0]) == Open[0];
    LowerOfSymbol(m[0], '<');
    var k := |m| - 4;
    assert CiAt(m, k, Close);
    assert Lower(m[k + 3]) == Close[3];
    LowerOfSymbol(m[|m| - 1], '>');
  }
}
