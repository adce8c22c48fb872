/**
 * The arithmetic of the reduce phase: the relevance score of a sequence of
 * emitted tokens against a token-frequency table, the frequency table of a
 * token sequence, and the grouping of emissions by post title that the
 * shuffle performs between map and reduce.
 */
module Scoring {

  import opened Sequences

  /** What one token adds to a score: its count in the table, 0 when it is absent. */
  function Lookup(source: map<string, int>, t: string): int {
    if t in source then source[t] else 0
  }

  /** The score of a sequence of tokens: the sum of their table counts. */
  function Score(source: map<string, int>, values: seq<string>): int {
    if values == [] then 0
    else Score(source, values[..|values| - 1]) + Lookup(source, values[|values| - 1])
  }

  lemma ScoreSingleton(source: map<string, int>, t: string)
    ensures Score(source, [t]) == Lookup(source, t)
  {
    assert [t][..0] == [];
  }

  /** Scores add up over concatenation; repeated tokens are not merged. */
  lemma {:induction false} ScoreAppend(source: map<string, int>, a: seq<string>, b: seq<string>)
    ensures Score(source, a + b) == Score(source, a) + Score(source, b)
    decreases |b|
  {
    if b == [] {
      assert a + b == a;
    } else {
      var init := b[..|b| - 1];
      assert (a + b)[..|a + b| - 1] == a + init;
      assert (a + b)[|a + b| - 1] == b[|b| - 1];
      ScoreAppend(source, a, init);
    }
  }

  /** Taking one token out of a sequence takes its count out of the score. */
  lemma ScoreRemoveAt(source: map<string, int>, b: seq<string>, j: nat)
    requires j < |b|
    ensures Score(source, b) == Score(source, b[..j] + b[j + 1..]) + Lookup(source, b[j])
  {
    assert b == b[..j] + [b[j]] + b[j + 1..];
    ScoreAppend(source, b[..j], [b[j]]);
    ScoreAppend(source, b[..j] + [b[j]], b[j + 1..]);
    ScoreAppend(source, b[..j], b[j + 1..]);
    ScoreSingleton(source, b[j]);
  }

  lemma MultisetRemoveAt(b: seq<string>, j: nat)
    requires j < |b|
    ensures multiset(b[..j] + b[j + 1..]) == multiset(b) - multiset{b[j]}
  {
    assert b == b[..j] + [b[j]] + b[j + 1..];
    assert multiset(b) == multiset(b[..j]) + multiset{b[j]} + multiset(b[j + 1..]);
  }

  /** The score depends only on which tokens arrive and how often, not on their order. */
  lemma {:induction false} ScorePermutation(source: map<string, int>, a: seq<string>, b: seq<string>)
    requires multiset(a) == multiset(b)
    ensures Score(source, a) == Score(source, b)
    decreases |a|
  {
    if a == [] {
      assert |b| == |multiset(b)| == 0;
    } else {
      var j := |a| - 1;
      assert a[j] in multiset(b);
      var i :| 0 <= i < |b| && b[i] == a[j];
      MultisetRemoveAt(a, j);
      MultisetRemoveAt(b, i);
      assert a[..j] + a[j + 1..] == a[..j];
      ScorePermutation(source, a[..j], b[..i] + b[i + 1..]);
      ScoreRemoveAt(source, b, i);
    }
  }

  /** values with every copy of t removed. */
  function Without(values: seq<string>, t: string): (r: seq<string>)
    ensures t !in r
  {
    if values == [] then []
    else
      Without(values[..|values| - 1], t)
        + (if values[|values| - 1] == t then [] else [values[|values| - 1]])
  }

  /**
   * A token counted X times in the table and emitted Y times contributes
   * X * Y to the score; the other tokens contribute the rest.
   */
  lemma {:induction false} TokenContribution(source: map<string, int>, values: seq<string>, t: string)
    ensures Score(source, values) == Score(source, Without(values, t)) + Lookup(source, t) * multiset(values)[t]
    decreases |values|
  {
    if values != [] {
      var x, init := values[|values| - 1], values[..|values| - 1];
      var l, n := Lookup(source, t), multiset(init)[t];
      MultisetLast(values, t);
      TokenContribution(source, init, t);
      assert Score(source, values) == Score(source, init) + Lookup(source, x);
      if x == t {
        assert Without(values, t) == Without(init, t);
        MultiplySucc(l, n);
      } else {
        assert Without(values, t) == Without(init, t) + [x];
        ScoreSnoc(source, Without(init, t), x);
      }
    }
  }

  lemma ScoreSnoc(source: map<string, int>, values: seq<string>, x: string)
    ensures Score(source, values + [x]) == Score(source, values) + Lookup(source, x)
  {
    Snoc(values, x);
  }

  lemma MultiplySucc(l: int, n: int)
    ensures l * (n + 1) == l * n + l
  {
  }

  /** With a table of non-negative counts no score is negative. */
  lemma {:induction false} ScoreNonNegative(source: map<string, int>, values: seq<string>)
    requires forall t :: t in source ==> source[t] >= 0
    ensures Score(source, values) >= 0
    decreases |values|
  {
    if values != [] {
      ScoreNonNegative(source, values[..|values| - 1]);
    }
  }

  /** The frequency table of a token sequence: each token it holds, mapped to its number of occurrences. */
  function Histogram(tokens: seq<string>): map<string, int> {
    map t | t in tokens :: multiset(tokens)[t]
  }

  /** Counting one more token: a new key starts at 1, a known key goes up by 1. */
  lemma HistogramAppend(tokens: seq<string>, x: string)
    ensures Histogram(tokens + [x]) == Histogram(tokens)[x := Lookup(Histogram(tokens), x) + 1]
  {
    var h, h' := Histogram(tokens), Histogram(tokens + [x]);
    var g := h[x := Lookup(h, x) + 1];
    assert multiset(tokens + [x]) == multiset(tokens) + multiset{x};
    forall t ensures t in h' <==> t in g {
      assert t in tokens + [x] <==> t in tokens || t == x;
    }
    forall t | t in h' ensures h'[t] == g[t] {
      if t == x {
        assert x in multiset(tokens) <==> x in tokens;
      }
    }
    assert h' == g;
  }

  /** The table update the reference builder performs: a known key goes up by 1, a new key starts at 1. */
  lemma HistogramCount(h: map<string, int>, tokens: seq<string>, x: string)
    requires h == Histogram(tokens)
    ensures Histogram(tokens + [x]) == if x in h then h[x := h[x] + 1] else h[x := 1]
  {
    HistogramAppend(tokens, x);
  }

  // ---------------------------------------------------------------------
  // Grouping: what the shuffle between map and reduce does.

  /** One (title, token) pair written by the mapper. */
  datatype Emission = Emission(title: string, token: string)

  /** The tokens emitted for one title, in emission order: the values its reduce call receives. */
  function Group(es: seq<Emission>, title: string): seq<string> {
    if es == [] then []
    else
      var last := es[|es| - 1];
      Group(es[..|es| - 1], title) + (if last.title == title then [last.token] else [])
  }

  /** The titles that occur among the emissions: one reduce call, and one output line, each. */
  function Titles(es: seq<Emission>): set<string> {
    set e | e in es :: e.title
  }

  /** The output of the whole job: each emitted title with the score of its group. */
  function Job(source: map<string, int>, es: seq<Emission>): map<string, int> {
    map title | title in Titles(es) :: Score(source, Group(es, title))
  }

  /** A title's group holds a token exactly as often as that (title, token) pair was emitted. */
  lemma {:induction false} GroupCounts(es: seq<Emission>, title: string, t: string)
    ensures multiset(Group(es, title))[t] == multiset(es)[Emission(title, t)]
  {
    if es != [] {
      MultisetLast(es, Emission(title, t));
      GroupCounts(es[..|es| - 1], title, t);
    }
  }

  /** Grouping commutes with concatenating emission streams, such as the outputs of two map calls. */
  lemma {:induction false} GroupAppend(e1: seq<Emission>, e2: seq<Emission>, title: string)
    ensures Group(e1 + e2, title) == Group(e1, title) + Group(e2, title)
    decreases |e2|
  {
    if e2 == [] {
      assert e1 + e2 == e1;
    } else {
      var init := e2[..|e2| - 1];
      assert (e1 + e2)[..|e1 + e2| - 1] == e1 + init;
      assert (e1 + e2)[|e1 + e2| - 1] == e2[|e2| - 1];
      GroupAppend(e1, init, title);
    }
  }

  /** The job's output does not depend on the order in which emissions reach the shuffle. */
  lemma JobOrderIndependent(source: map<string, int>, e1: seq<Emission>, e2: seq<Emission>)
    requires multiset(e1) == multiset(e2)
    ensures Job(source, e1) == Job(source, e2)
  {
    SameTitles(e1, e2);
    forall title | title in Titles(e1) ensures Score(source, Group(e1, title)) == Score(source, Group(e2, title)) {
      SameGroupScore(source, e1, e2, title);
    }
  }

  lemma SameTitles(e1: seq<Emission>, e2: seq<Emission>)
    requires multiset(e1) == multiset(e2)
    ensures Titles(e1) == Titles(e2)
  {
    forall title ensures title in Titles(e1) <==> title in Titles(e2) {
      if title in Titles(e1) {
        var e :| e in e1 && e.title == title;
        assert e in multiset(e2);
      }
      if title in Titles(e2) {
        var e :| e in e2 && e.title == title;
        assert e in multiset(e1);
      }
    }
  }

  lemma SameGroupScore(source: map<string, int>, e1: seq<Emission>, e2: seq<Emission>, title: string)
    requires multiset(e1) == multiset(e2)
    ensures Score(source, Group(e1, title)) == Score(source, Group(e2, title))
  {
    var g1, g2 := Group(e1, title), Group(e2, title);
    forall t ensures multiset(g1)[t] == multiset(g2)[t] {
      GroupCounts(e1, title, t);
      GroupCounts(e2, title, t);
    }
    assert multiset(g1) == multiset(g2);
    ScorePermutation(source, g1, g2);
  }

  /** A title's score over two emission streams is the sum of its scores over each. */
  lemma JobAdditive(source: map<string, int>, e1: seq<Emission>, e2: seq<Emission>, title: string)
    requires title in Titles(e1 + e2)
    ensures Job(source, e1 + e2)[title] == Score(source, Group(e1, title)) + Score(source, Group(e2, title))
  {
    GroupAppend(e1, e2, title);
    ScoreAppend(source, Group(e1, title), Group(e2, title));
  }
}
