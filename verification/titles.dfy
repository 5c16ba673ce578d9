/**
 * The title pattern `(?miU)\<title\>(.+?)\<\/title\>`. The `U` flag swaps
 * greedy and lazy, so the capture `(.+?)` is in fact greedy: it runs to the
 * last `</title>` reachable on the same line, and holds at least one character.
 */
module Titles {
  import opened Wrappers
  import opened Scan

  const Open: string := "<title>"
  const Close: string := "</title>"

  /**
   * Reference meaning: a match starts at `i` and its closing tag at `k`, with
   * no later closing tag reachable on the same line.
   */
  ghost predicate IsMatch(s: string, i: nat, k: nat) {
    && CiAt(s, i, Open) && i + 8 <= k && CiAt(s, k, Close)
    && '\n' !in s[i + 7..k]
    && forall k': nat :: k < k' <= |s| && '\n' !in s[i + 7..k'] ==> !CiAt(s, k', Close)
  }

  /** Some match starts at `i`. */
  ghost predicate StartsMatch(s: string, i: nat) {
    exists k: nat :: IsMatch(s, i, k)
  }

  /** Where the closing tag of the match starting at `i` begins; it is unique. */
  function MatchAt(s: string, i: nat): (r: Option<nat>)
    ensures r.Some? ==> IsMatch(s, i, r.value)
    ensures forall k: nat :: IsMatch(s, i, k) ==> r == Some(k)
  {
    if CiAt(s, i, Open) && i + 7 < |s| && s[i + 7] != '\n' then
      var r := LastCi(s, i + 8, Close);
      LastCiLast(s, i + 8, Close);
      if r.Some? then
        assert s[i + 7..r.value] == [s[i + 7]] + s[i + 8..r.value];
        forall k': nat | r.value < k' <= |s| && '\n' !in s[i + 7..k']
          ensures !CiAt(s, k', Close)
        {
          assert s[i + 7..k'] == [s[i + 7]] + s[i + 8..k'];
        }
        r
      else
        r
    else None
  }

  /** The first match at or after `pos`, as the positions of its start and of its closing tag. */
  function FirstFrom(s: string, pos: nat): (r: Option<(nat, nat)>)
    ensures r.Some? ==> pos <= r.value.0 && IsMatch(s, r.value.0, r.value.1)
    ensures r.Some? ==> forall i: nat :: pos <= i < r.value.0 ==> !StartsMatch(s, i)
    ensures r.None? ==> forall i: nat :: pos <= i ==> !StartsMatch(s, i)
    decreases |s| - pos
  {
    if pos >= |s| then
      assert forall i: nat, k: nat :: pos <= i ==> !IsMatch(s, i, k);
      None
    else match MatchAt(s, pos)
      case Some(k) => Some((pos, k))
      case None => FirstFrom(s, pos + 1)
  }

  /**
   * `regTitle.FindStringSubmatch(s)[1]`: the capture of the leftmost match, or
   * `None` where Go's result is nil and indexing it panics.
   */
  function Capture(s: string): (r: Option<string>)
    ensures r.None? <==> forall i: nat :: !StartsMatch(s, i)
  {
    match FirstFrom(s, 0)
    case Some((i, k)) =>
      assert StartsMatch(s, i);
      Some(s[i + 7..k])
    case None => None
  }

  /**
   * The capture is the inner text of the leftmost match, up to the last
   * closing tag on its line.
   */
  lemma CaptureIsLeftmostGreedy(s: string, i: nat, k: nat)
    requires IsMatch(s, i, k)
    requires forall i': nat :: i' < i ==> !StartsMatch(s, i')
    ensures Capture(s) == Some(s[i + 7..k])
  {
    assert StartsMatch(s, i);
    var f := FirstFrom(s, 0);
    assert f.Some?;
    var (i2, k2) := f.value;
    if i2 < i {
      assert StartsMatch(s, i2);
      assert false;
    }
    if i < i2 {
      assert false;
    }
    var _ := MatchAt(s, i);
  }
}
