/**
 * The one regular expression the mapper uses, <code>(.+?)</code>, written out
 * as a scanner with java.util.regex semantics: Matcher.find tries each start
 * position from the left; the group is lazy, so it is the shortest run of at
 * least one character after "<code>" that is followed by "</code>"; '.' does
 * not match a line terminator; the next find starts where the last match
 * ended.
 */
module CodeRegions {

  import opened Wrappers
  import opened Sequences

  const OPEN: string := "<code>"
  const CLOSE: string := "</code>"

  /** The characters '.' does not match without DOTALL or UNIX_LINES. */
  predicate IsLineTerminator(c: char) {
    c == '\n' || c == '\r' || c == '\U{0085}' || c == '\U{2028}' || c == '\U{2029}'
  }

  /** "<code>" stands at p. */
  predicate OpensAt(b: string, p: nat) {
    && p + 6 <= |b|
    && b[p] == '<' && b[p + 1] == 'c' && b[p + 2] == 'o' && b[p + 3] == 'd' && b[p + 4] == 'e' && b[p + 5] == '>'
  }

  /** "</code>" stands at q. */
  predicate ClosesAt(b: string, q: nat) {
    && q + 7 <= |b|
    && b[q] == '<' && b[q + 1] == '/' && b[q + 2] == 'c' && b[q + 3] == 'o' && b[q + 4] == 'd' && b[q + 5] == 'e'
    && b[q + 6] == '>'
  }

  lemma MarkersAreTheLiterals(b: string, p: nat)
    ensures OpensAt(b, p) <==> p + |OPEN| <= |b| && b[p..p + |OPEN|] == OPEN
    ensures ClosesAt(b, p) <==> p + |CLOSE| <= |b| && b[p..p + |CLOSE|] == CLOSE
  {
    OpenLiteral(b, p);
    CloseLiteral(b, p);
  }

  lemma OpenLiteral(b: string, p: nat)
    ensures OpensAt(b, p) <==> p + |OPEN| <= |b| && b[p..p + |OPEN|] == OPEN
  {
    assert OPEN == ['<', 'c', 'o', 'd', 'e', '>'];
    if p + 6 <= |b| {
      var w := b[p..p + 6];
      assert w == [b[p], b[p + 1], b[p + 2], b[p + 3], b[p + 4], b[p + 5]];
    }
  }

  lemma CloseLiteral(b: string, p: nat)
    ensures ClosesAt(b, p) <==> p + |CLOSE| <= |b| && b[p..p + |CLOSE|] == CLOSE
  {
    assert CLOSE == ['<', '/', 'c', 'o', 'd', 'e', '>'];
    if p + 7 <= |b| {
      var w := b[p..p + 7];
      assert w == [b[p], b[p + 1], b[p + 2], b[p + 3], b[p + 4], b[p + 5], b[p + 6]];
    }
  }

  /** A match of the whole pattern; b[start..end] is group 1. */
  datatype Match = Match(start: nat, end: nat)

  /** The lazy group has reached q: the first q at or after which "</code>" follows, if no line terminator comes first. */
  function LazyEnd(b: string, q: nat): (r: Option<nat>)
    requires q <= |b|
    ensures r.Some? ==> q <= r.value && ClosesAt(b, r.value)
    decreases |b| - q
  {
    if ClosesAt(b, q) then Some(q)
    else if q < |b| && !IsLineTerminator(b[q]) then LazyEnd(b, q + 1)
    else None
  }

  /** The match of the pattern starting exactly at p, if there is one. */
  function MatchAt(b: string, p: nat): (r: Option<Match>)
    ensures r.Some? ==> r.value.start == p + |OPEN| < r.value.end && r.value.end + |CLOSE| <= |b|
  {
    if OpensAt(b, p) && p + |OPEN| < |b| && !IsLineTerminator(b[p + |OPEN|]) then
      match LazyEnd(b, p + |OPEN| + 1)
      case Some(e) => Some(Match(p + |OPEN|, e))
      case None => None
    else None
  }

  predicate NoTerminator(b: string, i: nat, j: nat)
    requires i <= j <= |b|
  {
    forall k :: i <= k < j ==> !IsLineTerminator(b[k])
  }

  predicate NoCloseBetween(b: string, i: nat, j: nat) {
    forall q :: i <= q < j ==> !ClosesAt(b, q)
  }

  lemma {:induction false} LazyEndSpec(b: string, q: nat, e: nat)
    requires q <= |b|
    ensures LazyEnd(b, q) == Some(e) <==>
      q <= e <= |b| && ClosesAt(b, e) && NoTerminator(b, q, e) && NoCloseBetween(b, q, e)
    decreases |b| - q
  {
    if ClosesAt(b, q) {
    } else if q < |b| && !IsLineTerminator(b[q]) {
      LazyEndSpec(b, q + 1, e);
    }
  }

  /**
   * The pattern matches at p with group b[p+6..e] exactly when "<code>"
   * stands at p, the group is non-empty, has no line terminator, "</code>"
   * follows it, and no earlier "</code>" follows a shorter non-empty group.
   */
  lemma MatchAtSpec(b: string, p: nat, e: nat)
    ensures MatchAt(b, p) == Some(Match(p + |OPEN|, e)) <==>
      && OpensAt(b, p)
      && p + |OPEN| < e <= |b|
      && ClosesAt(b, e)
      && NoTerminator(b, p + |OPEN|, e)
      && NoCloseBetween(b, p + |OPEN| + 1, e)
  {
    if OpensAt(b, p) && p + |OPEN| < |b| && !IsLineTerminator(b[p + |OPEN|]) {
      LazyEndSpec(b, p + |OPEN| + 1, e);
    }
  }

  /** What Matcher.find returns when searching from position from: the leftmost match. */
  function NextMatch(b: string, from: nat): (r: Option<Match>)
    requires from <= |b|
    ensures r.Some? ==> from + |OPEN| <= r.value.start && MatchAt(b, r.value.start - |OPEN|) == r
    decreases |b| - from
  {
    if from == |b| then None
    else
      match MatchAt(b, from)
      case Some(m) => Some(m)
      case None => NextMatch(b, from + 1)
  }

  /** find returns the leftmost match: there is none at an earlier start, and there is none at all when it returns nothing. */
  lemma {:induction false} NextMatchIsLeftmost(b: string, from: nat, p: nat)
    requires from <= p <= |b|
    ensures NextMatch(b, from).Some? && p < NextMatch(b, from).value.start - |OPEN| ==> MatchAt(b, p).None?
    ensures NextMatch(b, from).None? ==> MatchAt(b, p).None?
    decreases |b| - from
  {
    if from < |b| && MatchAt(b, from).None? && from < p {
      NextMatchIsLeftmost(b, from + 1, p);
    }
  }

  /** m lies in b after from, with room for the markers around it. */
  predicate MatchFrom(b: string, from: nat, m: Match) {
    && from + |OPEN| <= m.start < m.end
    && m.end + |CLOSE| <= |b|
  }

  /** The matches that successive calls of find produce from position from, left to right. */
  function MatchesFrom(b: string, from: nat): (ms: seq<Match>)
    requires from <= |b|
    ensures forall k :: 0 <= k < |ms| ==> MatchFrom(b, from, ms[k])
    decreases |b| - from
  {
    match NextMatch(b, from)
    case None => []
    case Some(m) =>
      var rest := MatchesFrom(b, m.end + |CLOSE|);
      assert forall k :: 0 <= k < |rest| ==> MatchFrom(b, from, rest[k]);
      [m] + rest
  }

  /** One call of find that succeeds: the matches from `from` on are the one it returns, then those after its "</code>". */
  lemma MatchesFromStep(b: string, from: nat, m: Match, next: nat)
    requires from <= |b| && NextMatch(b, from) == Some(m) && next == m.end + |CLOSE|
    ensures from + |OPEN| <= m.start < m.end && next <= |b|
    ensures MatchesFrom(b, from) == [m] + MatchesFrom(b, next)
  {
    NextMatchBounds(b, from, m);
    MatchesFromUnfold(b, from, m, next);
  }

  lemma NextMatchBounds(b: string, from: nat, m: Match)
    requires from <= |b| && NextMatch(b, from) == Some(m)
    ensures from + |OPEN| <= m.start < m.end && m.end + |CLOSE| <= |b|
  {
  }

  lemma MatchesFromUnfold(b: string, from: nat, m: Match, next: nat)
    requires from <= |b| && NextMatch(b, from) == Some(m) && next == m.end + |CLOSE| && next <= |b|
    ensures MatchesFrom(b, from) == [m] + MatchesFrom(b, next)
  {
  }

  /** One call of find that fails: there are no more matches. */
  lemma MatchesFromEnd(b: string, from: nat)
    requires from <= |b| && NextMatch(b, from).None?
    ensures MatchesFrom(b, from) == []
  {
  }

  /** Each match's "<code>" starts after the previous one's "</code>" has ended. */
  predicate Chained(ms: seq<Match>) {
    forall i, j :: 0 <= i < j < |ms| ==> ms[i].end + |CLOSE| + |OPEN| <= ms[j].start
  }

  lemma ChainedCons(ms: seq<Match>, m: Match, rest: seq<Match>)
    requires ms == [m] + rest && Chained(rest)
    requires forall k :: 0 <= k < |rest| ==> m.end + |CLOSE| + |OPEN| <= rest[k].start
    ensures Chained(ms)
  {
    forall i, j | 0 <= i < j < |ms|
      ensures ms[i].end + |CLOSE| + |OPEN| <= ms[j].start
    {
      assert ms[j] == rest[j - 1];
      if i > 0 {
        assert ms[i] == rest[i - 1];
      }
    }
  }

  /** Successive matches do not overlap. */
  lemma {:induction false} MatchesDoNotOverlap(b: string, from: nat)
    requires from <= |b|
    ensures Chained(MatchesFrom(b, from))
    decreases |b| - from
  {
    match NextMatch(b, from)
    case None =>
      MatchesFromEnd(b, from);
    case Some(m) =>
      var next := m.end + |CLOSE|;
      MatchesFromStep(b, from, m, next);
      var rest := MatchesFrom(b, next);
      MatchesDoNotOverlap(b, next);
      assert forall k :: 0 <= k < |rest| ==> MatchFrom(b, next, rest[k]);
      ChainedCons(MatchesFrom(b, from), m, rest);
  }

  /** m is the match find reports when it tries the position of m's "<code>". */
  predicate IsMatch(b: string, m: Match) {
    m.start >= |OPEN| && MatchAt(b, m.start - |OPEN|) == Some(m)
  }

  /** Every element of MatchesFrom is a match of the pattern at its own position. */
  lemma {:induction false} MatchesFromAreMatches(b: string, from: nat)
    requires from <= |b|
    ensures forall k :: 0 <= k < |MatchesFrom(b, from)| ==> IsMatch(b, MatchesFrom(b, from)[k])
    decreases |b| - from
  {
    match NextMatch(b, from)
    case None =>
      MatchesFromEnd(b, from);
    case Some(m) =>
      var next := m.end + |CLOSE|;
      MatchesFromStep(b, from, m, next);
      MatchesFromAreMatches(b, next);
      NextMatchIsMatch(b, from, m);
      MatchesCons(b, MatchesFrom(b, from), m, MatchesFrom(b, next));
  }

  lemma NextMatchIsMatch(b: string, from: nat, m: Match)
    requires from <= |b| && NextMatch(b, from) == Some(m)
    ensures IsMatch(b, m)
  {
  }

  lemma MatchesCons(b: string, ms: seq<Match>, m: Match, rest: seq<Match>)
    requires ms == [m] + rest && IsMatch(b, m)
    requires forall k :: 0 <= k < |rest| ==> IsMatch(b, rest[k])
    ensures forall k :: 0 <= k < |ms| ==> IsMatch(b, ms[k])
  {
    forall k | 0 <= k < |ms| ensures IsMatch(b, ms[k]) {
      if k > 0 {
        assert ms[k] == rest[k - 1];
      }
    }
  }

  /** The code regions of a post body: the text of group 1 of every match, in order. */
  function Regions(b: string): seq<string> {
    var ms := MatchesFrom(b, 0);
    seq(|ms|, k requires 0 <= k < |ms| => b[ms[k].start..ms[k].end])
  }

  /** What a match at its own position looks like, spelled out. */
  lemma MatchShape(b: string, m: Match)
    requires IsMatch(b, m)
    ensures m.start < m.end <= |b|
    ensures OpensAt(b, m.start - |OPEN|) && ClosesAt(b, m.end)
    ensures NoTerminator(b, m.start, m.end) && NoCloseBetween(b, m.start + 1, m.end)
  {
    var p := m.start - |OPEN|;
    assert m == Match(p + |OPEN|, m.end);
    MatchAtSpec(b, p, m.end);
  }

  /**
   * Region k is a non-empty run without line terminators that stands
   * right after a "<code>" and right before a "</code>", with no "</code>"
   * after any shorter non-empty prefix of it.
   */
  lemma RegionShape(b: string, k: nat, m: Match)
    requires k < |MatchesFrom(b, 0)| && m == MatchesFrom(b, 0)[k]
    ensures k < |Regions(b)| && Regions(b)[k] == b[m.start..m.end]
    ensures Regions(b)[k] != []
    ensures OpensAt(b, m.start - |OPEN|) && ClosesAt(b, m.end)
    ensures NoTerminator(b, m.start, m.end) && NoCloseBetween(b, m.start + 1, m.end)
  {
    MatchesFromAreMatches(b, 0);
    MatchShape(b, m);
  }

  /** A body in which no "</code>" starts after a "<code>" with room for a group between them has no code regions. */
  lemma NoMarkersNoRegions(b: string)
    requires forall p: nat, q: nat :: OpensAt(b, p) && ClosesAt(b, q) ==> q <= p + |OPEN|
    ensures Regions(b) == []
  {
    var ms := MatchesFrom(b, 0);
    if ms != [] {
      MatchesFromAreMatches(b, 0);
      MatchShape(b, ms[0]);
    }
  }
}
