/**
 * Whitespace tokenizing as the scorer does it: a string is cut into the
 * maximal runs of non-separator characters, and only runs of at least
 * MIN_TOKEN_SIZE characters are kept.
 *
 * Two separator sets are in play. java.util.StringTokenizer, used on code
 * regions, splits on " \t\n\r\f" by default; java.util.Scanner, used on the
 * reference file, splits on Character.isWhitespace, which is wider.
 */
module Tokenize {

  import opened Sequences

  /** The minimum length of a valid token. */
  const MIN_TOKEN_SIZE: nat := 3

  datatype Separators =
    | TokenizerDefault   // StringTokenizer(String): " \t\n\r\f"
    | JavaWhitespace     // Scanner's default delimiter: Character.isWhitespace

  predicate IsTokenizerDelimiter(c: char) {
    c == ' ' || c == '\t' || c == '\n' || c == '\r' || c == '\U{000C}'
  }

  /**
   * Character.isWhitespace: the Unicode space, line and paragraph separators
   * other than the non-breaking ones (U+00A0, U+2007, U+202F), together with
   * U+0009..U+000D and U+001C..U+001F. U+180E is taken to be a space
   * separator, as in the Unicode versions of Java 7 and 8.
   */
  predicate IsJavaWhitespace(c: char) {
    || ('\t' <= c <= '\r')
    || ('\U{001C}' <= c <= '\U{001F}')
    || c == ' '
    || c == '\U{1680}'
    || c == '\U{180E}'
    || ('\U{2000}' <= c <= '\U{2006}')
    || ('\U{2008}' <= c <= '\U{200A}')
    || c == '\U{2028}'
    || c == '\U{2029}'
    || c == '\U{205F}'
    || c == '\U{3000}'
  }

  predicate IsSeparator(kind: Separators, c: char) {
    match kind
    case TokenizerDefault => IsTokenizerDelimiter(c)
    case JavaWhitespace => IsJavaWhitespace(c)
  }

  lemma TokenizerDelimitersAreJavaWhitespace(c: char)
    ensures IsSeparator(TokenizerDefault, c) ==> IsSeparator(JavaWhitespace, c)
  {
  }

  predicate SeparatorFree(kind: Separators, s: string) {
    forall i :: 0 <= i < |s| ==> !IsSeparator(kind, s[i])
  }

  /** The length of the longest separator-free prefix of s. */
  function RunLength(kind: Separators, s: string): (n: nat)
    ensures n <= |s|
    ensures SeparatorFree(kind, s[..n])
    ensures n < |s| ==> IsSeparator(kind, s[n])
  {
    if s == [] || IsSeparator(kind, s[0]) then 0 else 1 + RunLength(kind, s[1..])
  }

  /** The tokens of s, left to right: its maximal separator-free runs. */
  function Split(kind: Separators, s: string): seq<string>
    decreases |s|
  {
    if s == [] then []
    else if IsSeparator(kind, s[0]) then Split(kind, s[1..])
    else
      var n := RunLength(kind, s);
      [s[..n]] + Split(kind, s[n..])
  }

  /** The characters of s that are not separators, in order. */
  function Strip(kind: Separators, s: string): string {
    if s == [] then []
    else (if IsSeparator(kind, s[0]) then [] else [s[0]]) + Strip(kind, s[1..])
  }

  function Concat(ss: seq<string>): string {
    if ss == [] then [] else ss[0] + Concat(ss[1..])
  }

  /** Every token is non-empty and holds no separator. */
  lemma {:induction false} SplitTokensAreRuns(kind: Separators, s: string)
    ensures forall k :: 0 <= k < |Split(kind, s)| ==>
      Split(kind, s)[k] != [] && SeparatorFree(kind, Split(kind, s)[k])
    decreases |s|
  {
    if s == [] {
    } else if IsSeparator(kind, s[0]) {
      SplitTokensAreRuns(kind, s[1..]);
    } else {
      var n := RunLength(kind, s);
      SplitTokensAreRuns(kind, s[n..]);
    }
  }

  lemma {:induction false} StripOfSeparatorFree(kind: Separators, s: string)
    requires SeparatorFree(kind, s)
    ensures Strip(kind, s) == s
  {
    if s != [] {
      StripOfSeparatorFree(kind, s[1..]);
    }
  }

  lemma {:induction false} StripAppend(kind: Separators, a: string, b: string)
    ensures Strip(kind, a + b) == Strip(kind, a) + Strip(kind, b)
  {
    if a == [] {
      assert a + b == b;
    } else {
      assert (a + b)[0] == a[0];
      assert (a + b)[1..] == a[1..] + b;
      StripAppend(kind, a[1..], b);
    }
  }

  /** No character is lost or invented: the tokens, glued together, are s without its separators. */
  lemma {:induction false} SplitKeepsText(kind: Separators, s: string)
    ensures Concat(Split(kind, s)) == Strip(kind, s)
    decreases |s|
  {
    if s == [] {
    } else if IsSeparator(kind, s[0]) {
      SplitKeepsText(kind, s[1..]);
    } else {
      var n := RunLength(kind, s);
      SplitKeepsText(kind, s[n..]);
      assert s == s[..n] + s[n..];
      StripAppend(kind, s[..n], s[n..]);
      StripOfSeparatorFree(kind, s[..n]);
    }
  }

  lemma {:induction false} RunLengthStopsAtSeparator(kind: Separators, a: string, c: char, b: string)
    requires IsSeparator(kind, c)
    ensures RunLength(kind, a + [c] + b) == RunLength(kind, a)
  {
    if a == [] {
      assert (a + [c] + b)[0] == c;
    } else {
      assert (a + [c] + b)[0] == a[0];
      assert (a + [c] + b)[1..] == a[1..] + [c] + b;
      RunLengthStopsAtSeparator(kind, a[1..], c, b);
    }
  }

  /** A leading separator is skipped. */
  lemma SplitSkip(kind: Separators, s: string)
    requires s != [] && IsSeparator(kind, s[0])
    ensures Split(kind, s) == Split(kind, s[1..])
  {
  }

  /** A leading run is the first token. */
  lemma SplitRun(kind: Separators, s: string, n: nat)
    requires n == RunLength(kind, s) && n >= 1
    ensures n <= |s|
    ensures Split(kind, s) == [s[..n]] + Split(kind, s[n..])
  {
  }

  /** Splitting distributes over a separator: a separator always ends the token before it. */
  lemma {:induction false} SplitAtSeparator(kind: Separators, a: string, c: char, b: string)
    requires IsSeparator(kind, c)
    ensures Split(kind, a + [c] + b) == Split(kind, a) + Split(kind, b)
    decreases |a|
  {
    var s := a + [c] + b;
    if a == [] {
      assert s[0] == c && s[1..] == b;
      SplitSkip(kind, s);
    } else if IsSeparator(kind, a[0]) {
      var rest := a[1..];
      SplitAtSeparator(kind, rest, c, b);
      SkipBeforeSeparator(kind, a, rest, c, b);
    } else {
      var n := RunLength(kind, a);
      assert n >= 1;
      RunLengthStopsAtSeparator(kind, a, c, b);
      var head, rest := a[..n], a[n..];
      var t := rest + [c] + b;
      assert a == head + rest;
      Associative(head, rest, [c]);
      Associative(head, rest + [c], b);
      SplitAtSeparator(kind, rest, c, b);
      RunBeforeSeparator(kind, s, a, n, head, rest, t, b);
    }
  }

  /** The step of SplitAtSeparator for a leading separator. */
  lemma SkipBeforeSeparator(kind: Separators, a: string, rest: string, c: char, b: string)
    requires a != [] && IsSeparator(kind, a[0]) && rest == a[1..]
    requires Split(kind, rest + [c] + b) == Split(kind, rest) + Split(kind, b)
    ensures Split(kind, a + [c] + b) == Split(kind, a) + Split(kind, b)
  {
    var x, t := a[0], rest + [c] + b;
    assert a == [x] + rest;
    Associative([x], rest, [c]);
    Associative([x], rest + [c], b);
    SplitSkipCons(kind, x, t);
    SplitSkipCons(kind, x, rest);
  }

  lemma SplitSkipCons(kind: Separators, x: char, t: string)
    requires IsSeparator(kind, x)
    ensures Split(kind, [x] + t) == Split(kind, t)
  {
    assert ([x] + t)[1..] == t;
  }

  /** The step of SplitAtSeparator for a leading run head: a is head + rest, and s is head + t. */
  lemma RunBeforeSeparator(kind: Separators, s: string, a: string, n: nat, head: string, rest: string, t: string, b: string)
    requires n == RunLength(kind, a) && n >= 1 && n == RunLength(kind, s)
    requires head == a[..n] && a == head + rest && s == head + t
    requires Split(kind, t) == Split(kind, rest) + Split(kind, b)
    ensures Split(kind, s) == Split(kind, a) + Split(kind, b)
  {
    Halves(head, t);
    Halves(head, rest);
    SplitRun(kind, s, n);
    SplitRun(kind, a, n);
    Associative([head], Split(kind, rest), Split(kind, b));
  }

  /** A non-empty separator-free string is a single token. */
  lemma {:induction false} SplitOfRun(kind: Separators, s: string)
    requires s != [] && SeparatorFree(kind, s)
    ensures Split(kind, s) == [s]
  {
    var n := RunLength(kind, s);
    assert n == |s|;
    assert s[..n] == s && s[n..] == [];
  }

  /**
   * The tokens of length MIN_TOKEN_SIZE or more, in their original order;
   * every copy of a kept token is kept.
   */
  function Qualifying(tokens: seq<string>): (r: seq<string>)
    ensures forall k :: 0 <= k < |r| ==> |r[k]| >= MIN_TOKEN_SIZE
  {
    if tokens == [] then []
    else
      var last := tokens[|tokens| - 1];
      Qualifying(tokens[..|tokens| - 1]) + (if |last| >= MIN_TOKEN_SIZE then [last] else [])
  }

  /** One more token read: it is kept exactly when it is long enough. */
  lemma QualifyingStep(tokens: seq<string>, i: nat)
    requires i < |tokens|
    ensures Qualifying(tokens[..i + 1]) == Qualifying(tokens[..i]) + (if |tokens[i]| >= MIN_TOKEN_SIZE then [tokens[i]] else [])
  {
    assert tokens[..i + 1][..i] == tokens[..i];
  }

  lemma {:induction false} QualifyingAppend(a: seq<string>, b: seq<string>)
    ensures Qualifying(a + b) == Qualifying(a) + Qualifying(b)
    decreases |b|
  {
    if b == [] {
      assert a + b == a;
    } else {
      var x := a + b;
      var last := b[|b| - 1];
      var keep := if |last| >= MIN_TOKEN_SIZE then [last] else [];
      assert x[|x| - 1] == last;
      assert x[..|x| - 1] == a + b[..|b| - 1];
      assert Qualifying(x) == Qualifying(a + b[..|b| - 1]) + keep;
      assert Qualifying(b) == Qualifying(b[..|b| - 1]) + keep;
      QualifyingAppend(a, b[..|b| - 1]);
    }
  }

  /** A token long enough keeps all its copies; a shorter one keeps none. */
  lemma {:induction false} QualifyingCounts(tokens: seq<string>, t: string)
    ensures multiset(Qualifying(tokens))[t] == if |t| >= MIN_TOKEN_SIZE then multiset(tokens)[t] else 0
  {
    if tokens != [] {
      var init, last := tokens[..|tokens| - 1], tokens[|tokens| - 1];
      assert tokens == init + [last];
      QualifyingCounts(init, t);
    }
  }

  /** Every kept token occurs in the input, and a token occurs in the output exactly when it occurs in the input and is long enough. */
  lemma QualifyingMembers(tokens: seq<string>, t: string)
    ensures t in Qualifying(tokens) <==> t in tokens && |t| >= MIN_TOKEN_SIZE
  {
    QualifyingCounts(tokens, t);
    assert t in Qualifying(tokens) <==> t in multiset(Qualifying(tokens));
    assert t in tokens <==> t in multiset(tokens);
  }
}
