/**
 * The scorer's map and reduce steps and the reference-table builder.
 *
 * TokenizerMapper keeps the last body and title it found in two instance
 * fields, which map never resets: a record with too few fields reuses the
 * values of an earlier record. ReferenceIndex holds the token-frequency
 * table of the reference file, which TokenizeSource rebuilds from scratch.
 * Reduce sums the table counts of the tokens emitted for one title.
 */
module CodeCompareMR {

  import opened Wrappers
  import opened Tokenize
  import opened RecordScanner
  import opened CodeRegions
  import opened Scoring
  import opened Sequences

  /** One line of the job's output. */
  datatype ScoredPost = ScoredPost(title: string, score: int)

  predicate InBody(b: string, ms: seq<Match>) {
    forall k :: 0 <= k < |ms| ==> ms[k].start <= ms[k].end <= |b|
  }

  /** Every whitespace token of the code regions ms of body b, region after region. */
  function AllTokensOf(b: string, ms: seq<Match>): seq<string>
    requires InBody(b, ms)
  {
    if ms == [] then []
    else
      var last := ms[|ms| - 1];
      AllTokensOf(b, ms[..|ms| - 1]) + Split(TokenizerDefault, b[last.start..last.end])
  }

  /** The tokens the mapper keeps from the code regions ms of body b: those of each region, filtered by length. */
  function TokensOf(b: string, ms: seq<Match>): seq<string>
    requires InBody(b, ms)
  {
    if ms == [] then []
    else
      var last := ms[|ms| - 1];
      TokensOf(b, ms[..|ms| - 1]) + Qualifying(Split(TokenizerDefault, b[last.start..last.end]))
  }

  /** The tokens a body yields: those of all its code regions. */
  function CodeTokens(b: string): seq<string> {
    TokensOf(b, MatchesFrom(b, 0))
  }

  function Tagged(title: string, tokens: seq<string>): seq<Emission> {
    if tokens == [] then []
    else Tagged(title, tokens[..|tokens| - 1]) + [Emission(title, tokens[|tokens| - 1])]
  }

  lemma TaggedAppend(title: string, tokens: seq<string>, x: string)
    ensures Tagged(title, tokens + [x]) == Tagged(title, tokens) + [Emission(title, x)]
  {
    assert (tokens + [x])[..|tokens|] == tokens;
  }

  lemma {:induction false} TaggedConcat(title: string, a: seq<string>, b: seq<string>)
    ensures Tagged(title, a + b) == Tagged(title, a) + Tagged(title, b)
    decreases |b|
  {
    if b == [] {
      assert a + b == a;
    } else {
      var x := b[|b| - 1];
      var c := b[..|b| - 1];
      assert b == c + [x];
      assert a + b == (a + c) + [x];
      TaggedAppend(title, a + c, x);
      TaggedAppend(title, c, x);
      TaggedConcat(title, a, c);
    }
  }

  lemma TokensOfAppend(b: string, ms: seq<Match>, m: Match)
    requires InBody(b, ms) && m.start <= m.end <= |b|
    ensures InBody(b, ms + [m])
    ensures TokensOf(b, ms + [m]) == TokensOf(b, ms) + Qualifying(Split(TokenizerDefault, b[m.start..m.end]))
  {
    assert (ms + [m])[..|ms|] == ms;
  }

  /**
   * One call of find in the emitting loop: the match it returns is the next
   * of the body's matches, the next search starts after its "</code>", and
   * the region's tokens come next.
   */
  lemma FindStep(b: string, from: nat, next: nat, done: seq<Match>, m: Match)
    requires from <= |b| && NextMatch(b, from) == Some(m) && next == m.end + |CLOSE|
    requires done + MatchesFrom(b, from) == MatchesFrom(b, 0) && InBody(b, done)
    ensures m.start <= m.end && from < next <= |b|
    ensures (done + [m]) + MatchesFrom(b, next) == MatchesFrom(b, 0)
    ensures InBody(b, done + [m])
    ensures TokensOf(b, done + [m]) == TokensOf(b, done) + Qualifying(Split(TokenizerDefault, b[m.start..m.end]))
  {
    MatchesFromStep(b, from, m, next);
    Associative(done, [m], MatchesFrom(b, next));
    TokensOfAppend(b, done, m);
  }

  /** What map writes once the mapper holds this body and title: nothing unless it holds both. */
  function Emissions(title: Option<string>, body: Option<string>): seq<Emission> {
    if body.None? || title.None? then [] else Tagged(title.value, CodeTokens(body.value))
  }

  /** The frequency table of the reference file: each long-enough Scanner token with its count. */
  function Frequencies(contents: string): map<string, int> {
    Histogram(Qualifying(Split(JavaWhitespace, contents)))
  }

  function Clamp(post: string, index: nat): nat {
    if index <= |post| then index else |post|
  }

  // ---------------------------------------------------------------------
  // What map emits.

  lemma {:induction false} TaggedShape(title: string, tokens: seq<string>)
    ensures |Tagged(title, tokens)| == |tokens|
    ensures forall k :: 0 <= k < |tokens| ==> Tagged(title, tokens)[k] == Emission(title, tokens[k])
    decreases |tokens|
  {
    if tokens != [] {
      var init := tokens[..|tokens| - 1];
      TaggedShape(title, init);
      assert tokens == init + [tokens[|tokens| - 1]];
    }
  }

  /** Every kept token is long enough and holds no StringTokenizer delimiter. */
  lemma {:induction false} TokensOfQualify(b: string, ms: seq<Match>, k: nat)
    requires InBody(b, ms) && k < |TokensOf(b, ms)|
    ensures |TokensOf(b, ms)[k]| >= MIN_TOKEN_SIZE
    ensures SeparatorFree(TokenizerDefault, TokensOf(b, ms)[k])
    decreases |ms|
  {
    var last := ms[|ms| - 1];
    var init := ms[..|ms| - 1];
    var prefix := TokensOf(b, init);
    var words := Split(TokenizerDefault, b[last.start..last.end]);
    var kept := Qualifying(words);
    assert TokensOf(b, ms) == prefix + kept;
    if k < |prefix| {
      TokensOfQualify(b, init, k);
    } else {
      var t := kept[k - |prefix|];
      QualifyingMembers(words, t);
      var i :| 0 <= i < |words| && words[i] == t;
      SplitTokensAreRuns(TokenizerDefault, b[last.start..last.end]);
    }
  }

  /**
   * Each pair map writes carries the title it holds and a token of one of
   * the body's code regions that has at least MIN_TOKEN_SIZE characters and
   * no delimiter; nothing is written unless both a body and a title are held.
   */
  lemma EmissionsQualify(title: Option<string>, body: Option<string>, e: Emission)
    requires e in Emissions(title, body)
    ensures title.Some? && body.Some? && e.title == title.value
    ensures e.token in CodeTokens(body.value)
    ensures |e.token| >= MIN_TOKEN_SIZE && SeparatorFree(TokenizerDefault, e.token)
  {
    var b := body.value;
    var tokens := CodeTokens(b);
    TaggedShape(title.value, tokens);
    var k :| 0 <= k < |tokens| && Tagged(title.value, tokens)[k] == e;
    TokensOfQualify(b, MatchesFrom(b, 0), k);
  }

  /** A body with no "</code>" after a "<code>" with room between them yields no pairs, and neither does a missing body or title. */
  lemma NoCodeNoEmissions(title: Option<string>, body: Option<string>)
    requires || body.None? || title.None?
             || forall p: nat, q: nat :: OpensAt(body.value, p) && ClosesAt(body.value, q) ==> q <= p + |OPEN|
    ensures Emissions(title, body) == []
  {
    if body.Some? && title.Some? {
      NoMarkersNoRegions(body.value);
      assert |Regions(body.value)| == |MatchesFrom(body.value, 0)|;
    }
  }

  /** Filtering region by region is filtering all the regions' tokens at once. */
  lemma {:induction false} TokensOfFilters(b: string, ms: seq<Match>)
    requires InBody(b, ms)
    ensures TokensOf(b, ms) == Qualifying(AllTokensOf(b, ms))
    decreases |ms|
  {
    if ms != [] {
      var last := ms[|ms| - 1];
      var init := ms[..|ms| - 1];
      TokensOfFilters(b, init);
      QualifyingAppend(AllTokensOf(b, init), Split(TokenizerDefault, b[last.start..last.end]));
    }
  }

  /** A token is emitted once for each of its occurrences in the code regions if it is long enough, and never otherwise. */
  lemma CodeTokenCounts(b: string, t: string)
    ensures multiset(CodeTokens(b))[t]
         == if |t| >= MIN_TOKEN_SIZE then multiset(AllTokensOf(b, MatchesFrom(b, 0)))[t] else 0
  {
    TokensOfFilters(b, MatchesFrom(b, 0));
    QualifyingCounts(AllTokensOf(b, MatchesFrom(b, 0)), t);
  }

  // ---------------------------------------------------------------------
  // The reference table and the relevance score.

  /**
   * The table holds exactly the Scanner tokens of the reference file that
   * have at least MIN_TOKEN_SIZE characters, each with its number of
   * occurrences, which is at least 1.
   */
  lemma FrequenciesSpec(contents: string, t: string)
    ensures t in Frequencies(contents) <==> |t| >= MIN_TOKEN_SIZE && t in Split(JavaWhitespace, contents)
    ensures t in Frequencies(contents) ==>
      Frequencies(contents)[t] == multiset(Split(JavaWhitespace, contents))[t] >= 1
  {
    var tokens := Split(JavaWhitespace, contents);
    QualifyingMembers(tokens, t);
    QualifyingCounts(tokens, t);
  }

  /** X in the reducer's comment: how often t occurs among the reference file's tokens, 0 for a token that is too short to be kept. */
  function ReferenceCount(contents: string, t: string): nat {
    if |t| >= MIN_TOKEN_SIZE then multiset(Split(JavaWhitespace, contents))[t] else 0
  }

  /**
   * The relevance of a post: a token that occurs X times in the reference
   * file and Y times among the post's emitted tokens adds X * Y.
   */
  lemma RelevanceIsXY(contents: string, values: seq<string>, t: string)
    ensures Score(Frequencies(contents), values)
         == Score(Frequencies(contents), Without(values, t)) + ReferenceCount(contents, t) * multiset(values)[t]
  {
    FrequenciesSpec(contents, t);
    TokenContribution(Frequencies(contents), values, t);
  }

  /** The shuffle hands the tokens of one post back to its own title, in order, and to no other title. */
  lemma {:induction false} GroupOfTagged(title: string, tokens: seq<string>, other: string)
    ensures Group(Tagged(title, tokens), other) == if other == title then tokens else []
    decreases |tokens|
  {
    if tokens != [] {
      var init := tokens[..|tokens| - 1];
      var es := Tagged(title, tokens);
      GroupOfTagged(title, init, other);
      assert es[..|es| - 1] == Tagged(title, init);
      if other == title {
        assert tokens == init + [tokens[|tokens| - 1]];
      }
    }
  }

  lemma TitlesOfTagged(title: string, tokens: seq<string>)
    requires tokens != []
    ensures Titles(Tagged(title, tokens)) == {title}
  {
    TaggedShape(title, tokens);
    assert Tagged(title, tokens)[0] in Tagged(title, tokens);
  }

  /**
   * A post scored alone: if its body yields any token, the job writes one
   * line, for its title, whose score is the sum of the reference counts of
   * the tokens of its code regions.
   */
  lemma OnePostScore(contents: string, title: string, body: string)
    requires CodeTokens(body) != []
    ensures Titles(Emissions(Some(title), Some(body))) == {title}
    ensures Job(Frequencies(contents), Emissions(Some(title), Some(body)))[title]
         == Score(Frequencies(contents), CodeTokens(body))
  {
    var es := Emissions(Some(title), Some(body));
    assert es == Tagged(title, CodeTokens(body));
    TitlesOfTagged(title, CodeTokens(body));
    GroupOfTagged(title, CodeTokens(body), title);
  }

  class TokenizerMapper {

    /** The title of the post, as last found. */
    var title: Option<string>
    /** The body of the post, as last found. */
    var body: Option<string>

    constructor ()
      ensures title == None && body == None
    {
      title := None;
      body := None;
    }

    /**
     * Scans one record for its body and title fields, then writes one
     * (title, token) pair per long-enough token of every code region of the
     * body, provided both a body and a title are held.
     */
    method Map(post: string) returns (emitted: seq<Emission>)
      modifies this
      ensures body == Latest(old(body), FieldText(post, Fields(post), BODY_FIELD))
      ensures title == Latest(old(title), FieldText(post, Fields(post), TITLE_FIELD))
      ensures emitted == Emissions(title, body)
    {
      ghost var body0, title0 := body, title;
      var count := 0;
      var startIndex := 0;
      var escape := true;
      ghost var closed: seq<Field> := [];
      ghost var at: nat := 0;
      var index := 0;
      while index < |post|
        invariant at == Clamp(post, index) && startIndex <= index
        invariant count == |closed|
        invariant Scanning(post, closed, at, startIndex, escape)
        invariant body == Latest(body0, FieldText(post, closed, BODY_FIELD))
        invariant title == Latest(title0, FieldText(post, closed, TITLE_FIELD))
      {
        if post[index] == '"' {
          if index + 1 >= |post| || post[index + 1] == ',' {
            // A closing quote.
            ScanClose(post, closed, index, startIndex, escape);
            FieldTextAppend(post, closed, Field(startIndex, index), BODY_FIELD);
            FieldTextAppend(post, closed, Field(startIndex, index), TITLE_FIELD);
            if count == BODY_FIELD {
              body := Some(post[startIndex..index]);
            } else if count == TITLE_FIELD {
              title := Some(post[startIndex..index]);
            }
            closed := closed + [Field(startIndex, index)];
            at := After(post, index);
            index := index + 1;
            count := count + 1;
            escape := true;
          } else if !escape && post[index + 1] == '"' {
            // A doubled quote inside a field.
            ScanDoubled(post, closed, index, startIndex);
            at := index + 2;
            index := index + 1;
          } else {
            // An opening quote.
            ScanOpen(post, closed, index, startIndex, escape);
            at := index + 1;
            startIndex := index + 1;
            escape := false;
          }
        } else {
          ScanPlain(post, closed, index, startIndex, escape);
          at := index + 1;
        }
        index := index + 1;
      }
      ScanDone(post, closed, startIndex, escape);
      emitted := EmitTokens(title, body);
    }
  }

  /**
   * The emitting half of map: one (title, token) pair per long-enough token
   * of every code region of the body, region after region, when both a body
   * and a title are held.
   */
  method EmitTokens(title: Option<string>, body: Option<string>) returns (emitted: seq<Emission>)
    ensures emitted == Emissions(title, body)
  {
    emitted := [];
    if body.Some? {
      var b := body.value;
      var from := 0;
      ghost var done: seq<Match> := [];
      var found := NextMatch(b, from);
      while found.Some?
        invariant from <= |b|
        invariant found == NextMatch(b, from)
        invariant done + MatchesFrom(b, from) == MatchesFrom(b, 0)
        invariant InBody(b, done)
        invariant emitted == if title.Some? then Tagged(title.value, TokensOf(b, done)) else []
        decreases |b| - from
      {
        var m := found.value;
        ghost var previous := from;
        from := m.end + |CLOSE|;
        FindStep(b, previous, from, done, m);
        var written := EmitRegion(title, b[m.start..m.end]);
        if title.Some? {
          TaggedConcat(title.value, TokensOf(b, done), Qualifying(Split(TokenizerDefault, b[m.start..m.end])));
        }
        emitted := emitted + written;
        done := done + [m];
        found := NextMatch(b, from);
      }
      MatchesFromEnd(b, from);
      assert done + [] == done;
    }
  }

  /** The pairs written for one code region: its long-enough tokens, in order, each with the title, if a title is held. */
  method EmitRegion(title: Option<string>, region: string) returns (emitted: seq<Emission>)
    ensures emitted == if title.Some? then Tagged(title.value, Qualifying(Split(TokenizerDefault, region))) else []
  {
    emitted := [];
    var words := Split(TokenizerDefault, region);
    ghost var kept: seq<string> := [];
    var j := 0;
    while j < |words|
      invariant 0 <= j <= |words|
      invariant kept == Qualifying(words[..j])
      invariant title.None? ==> emitted == []
      invariant title.Some? ==> emitted == Tagged(title.value, kept)
    {
      var next := words[j];
      QualifyingStep(words, j);
      if |next| >= MIN_TOKEN_SIZE {
        if title.Some? {
          TaggedAppend(title.value, kept, next);
          emitted := emitted + [Emission(title.value, next)];
        }
        kept := kept + [next];
      }
      j := j + 1;
    }
    assert words[..j] == words;
  }


  class ReferenceIndex {

    /** Token of the reference file -> number of occurrences. */
    var source: map<string, int>

    constructor ()
      ensures source == map[]
    {
      source := map[];
    }

    /**
     * Rebuilds the table from the reference file's contents: the old table
     * is cleared, then every Scanner token of length MIN_TOKEN_SIZE or more
     * is counted.
     */
    method TokenizeSource(contents: string)
      modifies this
      ensures source == Frequencies(contents)
    {
      source := map[];
      var tokens := Split(JavaWhitespace, contents);
      ghost var kept: seq<string> := [];
      var i := 0;
      while i < |tokens|
        invariant 0 <= i <= |tokens|
        invariant kept == Qualifying(tokens[..i])
        invariant source == Histogram(kept)
      {
        var next := tokens[i];
        QualifyingStep(tokens, i);
        if |next| >= MIN_TOKEN_SIZE {
          HistogramCount(source, kept, next);
          if next in source {
            source := source[next := source[next] + 1];
          } else {
            source := source[next := 1];
          }
          kept := kept + [next];
        }
        i := i + 1;
      }
      assert tokens[..i] == tokens;
    }
  }

  /**
   * The reduce call for one title: for every token received, the count of
   * each table key equal to it is added to the accumulator.
   */
  method Reduce(source: map<string, int>, key: string, values: seq<string>) returns (result: ScoredPost)
    ensures result == ScoredPost(key, Score(source, values))
  {
    var accumulator := 0;
    var i := 0;
    while i < |values|
      invariant 0 <= i <= |values|
      invariant accumulator == Score(source, values[..i])
    {
      var t := values[i];
      var keys := source.Keys;
      ghost var scanned: set<string> := {};
      while keys != {}
        invariant keys + scanned == source.Keys && keys !! scanned
        invariant accumulator == Score(source, values[..i]) + (if t in scanned then source[t] else 0)
        decreases keys
      {
        var st :| st in keys;
        if t == st {
          accumulator := accumulator + source[st];
        }
        keys := keys - {st};
        scanned := scanned + {st};
      }
      assert values[..i + 1][..i] == values[..i];
      i := i + 1;
    }
    assert values[..i] == values;
    result := ScoredPost(key, accumulator);
  }
}
