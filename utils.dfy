/**
 * The scoring and threshold helpers shared by documents and paragraphs:
 * the strict comparisons a test is made of, the all-must-pass test runner,
 * and the language, medRxiv and average-token-length scores. Scores are
 * exact reals; a token count is a multiset of whitespace tokens.
 */
module Utils {
  import opened Strings
  import opened Tally

  /** `smaller(x, y)`: the mirror of `larger`, and never true of equal values. */
  function Smaller(x: real, y: real): (b: bool)
    ensures b <==> Larger(y, x)
    ensures b ==> x != y
  {
    x < y
  }

  /** `larger(x, y)`: never true of equal values, nor of both orders at once. */
  function Larger(x: real, y: real): (b: bool)
    ensures b ==> x != y
    ensures b ==> !(y > x)
  {
    x > y
  }

  /**
   * `between(x, (minimal_value, maximum_value))`: larger than the low bound
   * and smaller than the high one, so never true of a bound, nor for bounds
   * that leave no room between them.
   */
  function Between(x: real, pair: (real, real)): (b: bool)
    ensures b <==> Larger(x, pair.0) && Smaller(x, pair.1)
    ensures b ==> x != pair.0 && x != pair.1 && pair.0 < pair.1
  {
    pair.0 < x < pair.1
  }

  /** All three comparisons are strict: a value equal to a threshold or to a bound fails. */
  lemma ComparisonsAreStrict(x: real, low: real, high: real)
    ensures !Smaller(x, x) && !Larger(x, x)
    ensures Smaller(x, high) <==> Larger(high, x)
    ensures !Between(low, (low, high)) && !Between(high, (low, high))
    ensures Between(x, (low, high)) <==> Larger(x, low) && Smaller(x, high)
  {
  }

  /** A test as the tables hold it: a comparison and its threshold, or its pair of bounds. */
  datatype Test = SmallerThan(threshold: real) | LargerThan(threshold: real) | BetweenBounds(bounds: (real, real))
  {
    /** `test(val, threshold_value)`. */
    predicate Passes(value: real) {
      match this
      case SmallerThan(t) => Smaller(value, t)
      case LargerThan(t) => Larger(value, t)
      case BetweenBounds(b) => Between(value, b)
    }
  }

  /**
   * Every score that has a test of the same name passes it. `scores` lists a
   * score record's fields by name, in declaration order.
   */
  ghost predicate AllPass(tests: map<string, Test>, scores: seq<(string, real)>) {
    forall i :: 0 <= i < |scores| && scores[i].0 in tests ==> tests[scores[i].0].Passes(scores[i].1)
  }

  /**
   * `run_tests`: collect the outcome of every score that has a test and
   * succeed when no outcome is false. Scores without a test are ignored, so
   * a record with no tested score passes.
   */
  method RunTests(tests: map<string, Test>, scores: seq<(string, real)>) returns (passed: bool)
    ensures passed <==> AllPass(tests, scores)
    ensures (forall i :: 0 <= i < |scores| ==> scores[i].0 !in tests) ==> passed
  {
    var testScores: seq<bool> := [];
    for i := 0 to |scores|
      invariant (false !in testScores) <==> forall j :: 0 <= j < i && scores[j].0 in tests ==> tests[scores[j].0].Passes(scores[j].1)
    {
      var (testName, val) := scores[i];
      if testName in tests {
        var test := tests[testName];
        testScores := testScores + [test.Passes(val)];
      }
    }
    passed := false !in testScores;
  }

  /** The share of token occurrences that are frequent words; 0 for no tokens. */
  ghost function FrequentShare(tokens: multiset<string>, frequentWords: set<string>): real
  {
    if |tokens| == 0 then 0.0
    else Weighted(tokens, InSet(frequentWords)) as real / |tokens| as real
  }

  /** The language score is a proportion. */
  lemma ShareBounds(tokens: multiset<string>, frequentWords: set<string>)
    ensures 0.0 <= FrequentShare(tokens, frequentWords) <= 1.0
  {
    if |tokens| > 0 {
      var frequent := Weighted(tokens, InSet(frequentWords));
      WeightedMonotone(tokens, InSet(frequentWords), One);
      WeightedUniform(tokens, One, 1);
      assert frequent <= |tokens|;
      RatioBounds(frequent as real, |tokens| as real, 0.0, 1.0);
    }
  }

  /** Only frequent words: score 1. None at all: score 0. */
  lemma ShareExtremes(tokens: multiset<string>, frequentWords: set<string>)
    ensures |tokens| > 0 && (forall t :: t in tokens ==> t in frequentWords) ==> FrequentShare(tokens, frequentWords) == 1.0
    ensures (forall t :: t in tokens ==> t !in frequentWords) ==> FrequentShare(tokens, frequentWords) == 0.0
  {
    var n := |tokens| as real;
    if |tokens| > 0 && forall t :: t in tokens ==> t in frequentWords {
      WeightedUniform(tokens, InSet(frequentWords), 1);
      assert Weighted(tokens, InSet(frequentWords)) as real == n;
      RatioBounds(n, n, 1.0, 1.0);
    }
    if |tokens| > 0 && forall t :: t in tokens ==> t !in frequentWords {
      WeightedUniform(tokens, InSet(frequentWords), 0);
      assert Weighted(tokens, InSet(frequentWords)) as real == 0.0;
      RatioBounds(0.0, n, 0.0, 0.0);
    }
  }

  /**
   * `language_score`: the total is the number of occurrences; the frequent
   * occurrences are summed over the counter's items.
   */
  method LanguageScore(tokens: multiset<string>, frequentWords: set<string>) returns (score: real)
    ensures score == FrequentShare(tokens, frequentWords)
    ensures 0.0 <= score <= 1.0
    ensures |tokens| == 0 ==> score == 0.0
  {
    var totalTokens := |tokens|;
    var inFrequentWords := 0;
    var items := tokens;
    while items != multiset{}
      invariant inFrequentWords + Weighted(items, InSet(frequentWords)) == Weighted(tokens, InSet(frequentWords))
      decreases |items|
    {
      var token :| token in items;
      WeightedPick(items, InSet(frequentWords), token);
      RemovedSize(items, token);
      if token in frequentWords {
        inFrequentWords := inFrequentWords + items[token];
      }
      items := items[token := 0];
    }
    if totalTokens == 0 {
      score := 0.0;
    } else {
      score := inFrequentWords as real / totalTokens as real;
    }
    ShareBounds(tokens, frequentWords);
  }

  /**
   * `medrxiv_score`: matches of the literal `medRxiv` per paragraph, 0 for
   * no paragraphs. The matches are the cuts `split('medRxiv')` would make.
   */
  function MedrxivScore(text: string, paraCount: int): (r: real)
    ensures paraCount == 0 ==> r == 0.0
    ensures paraCount > 0 ==> 0.0 <= r <= CountMatches(text, "medRxiv") as real
  {
    if paraCount == 0 then 0.0
    else
      assert paraCount > 0 ==> 0.0 <= CountMatches(text, "medRxiv") as real / paraCount as real <= CountMatches(text, "medRxiv") as real by {
        if paraCount > 0 {
          DivideByCount(CountMatches(text, "medRxiv"), paraCount);
        }
      }
      CountMatches(text, "medRxiv") as real / paraCount as real
  }

  /**
   * The score is the number of cuts `split('medRxiv')` makes divided by the
   * paragraph count, and 0 for no paragraphs; for paragraphs it is never
   * negative.
   */
  lemma MedrxivScoreCounts(text: string, paraCount: int)
    ensures paraCount == 0 ==> MedrxivScore(text, paraCount) == 0.0
    ensures paraCount != 0 ==> MedrxivScore(text, paraCount) == (|Split(text, "medRxiv")| - 1) as real / paraCount as real
    ensures paraCount > 0 ==> MedrxivScore(text, paraCount) >= 0.0
  {
    var matches := CountMatches(text, "medRxiv");
    CountMatchesSplit(text, "medRxiv");
    if paraCount > 0 {
      DivideByCount(matches, paraCount);
    }
  }

  /** Total characters over `numberOfTokens`, each token counted as often as it occurs; 0 for no tokens. */
  ghost function MeanLength(numberOfTokens: int, tokens: multiset<string>): real
  {
    if numberOfTokens == 0 then 0.0
    else Weighted(tokens, Length) as real / numberOfTokens as real
  }

  /** When every token's length lies in `[low, high]`, so does the average over all occurrences. */
  lemma MeanLengthBounds(tokens: multiset<string>, low: nat, high: nat)
    requires |tokens| > 0
    requires forall t :: t in tokens ==> low <= |t| <= high
    ensures low as real <= MeanLength(|tokens|, tokens) <= high as real
  {
    var total, n := Weighted(tokens, Length), |tokens|;
    assert low * n <= total by {
      assert forall t :: t in tokens ==> Constant(low)(t) <= Length(t);
      WeightedMonotone(tokens, Constant(low), Length);
      WeightedUniform(tokens, Constant(low), low);
    }
    assert total <= high * n by {
      assert forall t :: t in tokens ==> Length(t) <= Constant(high)(t);
      WeightedMonotone(tokens, Length, Constant(high));
      WeightedUniform(tokens, Constant(high), high);
    }
    RatioBounds(total as real, n as real, low as real, high as real);
  }

  /** From `low * n <= total <= high * n` to `low <= total / n <= high`. */
  lemma RatioBounds(total: real, n: real, low: real, high: real)
    requires n > 0.0 && low * n <= total <= high * n
    ensures low <= total / n <= high
  {
  }

  /** A count divided by a positive count is at most the first count. */
  lemma DivideByCount(x: nat, n: nat)
    requires n >= 1
    ensures 0.0 <= x as real / n as real <= x as real
  {
    var a, b := x as real, n as real;
    assert a <= a * b by {
      assert a * b == a + a * (b - 1.0);
      assert a * (b - 1.0) >= 0.0;
    }
    RatioBounds(a, b, 0.0, a);
  }

  /** `average_token_length`: sum count times length over the counter's items, divide by the token count. */
  method AverageTokenLength(numberOfTokens: int, tokens: multiset<string>) returns (average: real)
    ensures average == MeanLength(numberOfTokens, tokens)
  {
    var totalLength := 0;
    var items := tokens;
    while items != multiset{}
      invariant totalLength + Weighted(items, Length) == Weighted(tokens, Length)
      decreases |items|
    {
      var token :| token in items;
      WeightedPick(items, Length, token);
      RemovedSize(items, token);
      totalLength := totalLength + items[token] * |token|;
      items := items[token := 0];
    }
    if numberOfTokens == 0 {
      average := 0.0;
    } else {
      average := totalLength as real / numberOfTokens as real;
    }
  }

  /**
   * `trim_filename`: drop the extension when the name ends with it. With the
   * default empty extension the slice `name[:-0]` is `name[:0]`, which is empty.
   */
  function TrimFilename(name: string, extension: string := ""): (trimmed: string)
    ensures !EndsWith(name, extension) ==> trimmed == name
    ensures EndsWith(name, extension) && extension != "" ==> trimmed + extension == name
    ensures extension == "" ==> trimmed == ""
  {
    if EndsWith(name, extension) then Prefix(name, -|extension|) else name
  }
}
