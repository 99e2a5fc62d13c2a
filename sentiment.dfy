/** The sentiment scorer of the analysis service: a base lexicon score
    (computed by a third-party library, so it arrives here as a number), an
    override pass over a bilingual word list, and the normalised score,
    label and confidence derived from the result. */
module SentimentScorer {
  import opened TextOps

  datatype Label = Positive | Negative | Neutral

  /** The `sentiment` record: the normalised score, the label and the rounded
      confidence.  The field for the source's `label` is called `polarity`,
      because `label` is a keyword in Dafny. */
  datatype Sentiment = Sentiment(score: real, polarity: Label, confidence: real)

  /** Turkish and English words that add 2 to the score. */
  const PositiveWords: seq<string> := [
    "güzel", "harika", "mükemmel", "muhteşem", "süper", "iyi", "başarılı", "mutlu",
    "sevinçli", "keyifli", "hoş", "tatlı", "sevimli", "eğlenceli", "pozitif",
    "amazing", "great", "good", "excellent", "wonderful", "fantastic",
    "happy", "joy", "love", "perfect", "awesome", "brilliant", "beautiful", "nice"
  ]

  /** Turkish and English words that take 2 from the score. */
  const NegativeWords: seq<string> := [
    "kötü", "berbat", "korkunç", "üzücü", "kızgın", "sinirli", "mutsuz", "zor",
    "problem", "sorun", "hata", "yanlış", "başarısız", "negatif", "kırık",
    "terrible", "awful", "bad", "horrible", "sad", "angry", "frustrated", "disappointed"
  ]

  /** `list.some(w => Matches(token, w))`. */
  predicate MatchesAny(token: string, list: seq<string>) {
    exists k :: 0 <= k < |list| && Matches(token, list[k])
  }

  /** The contribution of one token to the override pass. */
  function TokenDelta(token: string): (d: int)
    ensures d in {-2, 0, 2}
    ensures d == 2 <==> MatchesAny(token, PositiveWords) && !MatchesAny(token, NegativeWords)
    ensures d == -2 <==> MatchesAny(token, NegativeWords) && !MatchesAny(token, PositiveWords)
  {
    (if MatchesAny(token, PositiveWords) then 2 else 0) -
    (if MatchesAny(token, NegativeWords) then 2 else 0)
  }

  /** What the override pass adds to the base score over a token list. */
  function OverrideScore(tokens: seq<string>): int {
    if tokens == [] then 0
    else OverrideScore(tokens[..|tokens| - 1]) + TokenDelta(tokens[|tokens| - 1])
  }

  /** How many tokens match some word of `list`. */
  function CountMatching(tokens: seq<string>, list: seq<string>): nat {
    if tokens == [] then 0
    else CountMatching(tokens[..|tokens| - 1], list) + (if MatchesAny(tokens[|tokens| - 1], list) then 1 else 0)
  }

  /** Each token counts at most once per list: the override is twice the number
      of tokens that match a positive word minus twice the number of tokens that
      match a negative word. */
  lemma {:induction false} OverrideByCounts(tokens: seq<string>)
    ensures OverrideScore(tokens) == 2 * CountMatching(tokens, PositiveWords) - 2 * CountMatching(tokens, NegativeWords)
    ensures -2 * |tokens| <= OverrideScore(tokens) <= 2 * |tokens|
  {
    if tokens != [] {
      OverrideByCounts(tokens[..|tokens| - 1]);
    }
  }

  /** The empty token that `split` yields for a leading or trailing blank
      matches every word of both lists, so it contributes nothing. */
  lemma EmptyTokenNeutral()
    ensures MatchesAny("", PositiveWords) && MatchesAny("", NegativeWords)
    ensures TokenDelta("") == 0
  {
    IncludesEmpty(PositiveWords[0]);
    assert Matches("", PositiveWords[0]);
    IncludesEmpty(NegativeWords[0]);
    assert Matches("", NegativeWords[0]);
  }

  /** `Math.max(-1, Math.min(1, e / 5))`. */
  function Normalize(e: real): (r: real)
    ensures -1.0 <= r <= 1.0
    ensures -5.0 <= e <= 5.0 ==> r == e / 5.0
    ensures e >= 5.0 ==> r == 1.0
    ensures e <= -5.0 ==> r == -1.0
  {
    if e / 5.0 > 1.0 then 1.0 else if e / 5.0 < -1.0 then -1.0 else e / 5.0
  }

  function Abs(x: real): (r: real)
    ensures r >= 0.0 && (r == x || r == -x)
  {
    if x < 0.0 then -x else x
  }

  /** The label is taken from the raw score, with the thresholds 0.5 and -0.5. */
  function LabelOf(e: real): (l: Label)
    ensures l == Positive <==> e > 0.5
    ensures l == Negative <==> e < -0.5
    ensures l == Neutral <==> -0.5 <= e <= 0.5
  {
    if e > 0.5 then Positive else if e < -0.5 then Negative else Neutral
  }

  /** The confidence before rounding. */
  function RawConfidence(e: real): (c: real)
    ensures LabelOf(e) != Neutral ==> 0.6 <= c <= 0.95
    ensures LabelOf(e) == Neutral ==> 0.4 <= c <= 0.8
  {
    var n := Abs(Normalize(e));
    if e > 0.5 || e < -0.5 then
      (if 0.6 + n * 0.35 < 0.95 then 0.6 + n * 0.35 else 0.95)
    else
      (if 0.8 - n * 0.4 > 0.4 then 0.8 - n * 0.4 else 0.4)
  }

  /** `Math.round(x * 100) / 100`, computed exactly: `Math.round(y)` is the
      floor of `y + 0.5`. The result is a whole number of hundredths within half
      a hundredth of `x`. */
  function Round2(x: real): (r: real)
    ensures (r * 100.0).Floor as real == r * 100.0
    ensures x - 0.005 < r <= x + 0.005
  {
    ((x * 100.0 + 0.5).Floor as real) / 100.0
  }

  /** Rounding to hundredths keeps a value inside bounds that are themselves
      whole hundredths. */
  lemma Round2Within(x: real)
    ensures 0.6 <= x <= 0.95 ==> 0.6 <= Round2(x) <= 0.95
    ensures 0.4 <= x <= 0.8 ==> 0.4 <= Round2(x) <= 0.8
  {
    var f := (x * 100.0 + 0.5).Floor;
    assert 60.0 <= x * 100.0 <= 95.0 ==> 60 <= f <= 95;
    assert 40.0 <= x * 100.0 <= 80.0 ==> 40 <= f <= 80;
  }

  /** The scorer's result for an enhanced (base plus override) score `e`. */
  function Classify(e: real): (s: Sentiment)
    ensures -1.0 <= s.score <= 1.0
    ensures s.polarity == Positive <==> e > 0.5
    ensures s.polarity == Negative <==> e < -0.5
    ensures s.polarity != Neutral ==> 0.6 <= s.confidence <= 0.95
    ensures s.polarity == Neutral ==> 0.4 <= s.confidence <= 0.8
  {
    var c := RawConfidence(e);
    Round2Within(c);
    Sentiment(Normalize(e), LabelOf(e), Round2(c))
  }

  /** The label does not follow the normalised score: a raw score of 0.6 is
      positive although its normalised score is only 0.12. */
  lemma RawThresholdExample()
    ensures Classify(0.6).polarity == Positive && Classify(0.6).score == 0.12
  {
  }

  /** The base lexicon yields whole numbers, so the enhanced score is an
      integer: neutral means exactly 0, with score 0 and confidence 0.8, and a
      positive or negative score of magnitude m has confidence 0.6 + 0.07 * min(m, 5). */
  lemma IntegerScore(e: int)
    ensures Classify(e as real).polarity == Neutral <==> e == 0
    ensures e == 0 ==> Classify(e as real) == Sentiment(0.0, Neutral, 0.8)
    ensures e != 0 ==> RawConfidence(e as real) == 0.6 + 0.07 * (if -5 <= e <= 5 then Abs(e as real) else 5.0)
  {
    if e == 0 {
      assert Round2(0.8) == 0.8 by {
        assert (0.8 * 100.0 + 0.5).Floor == 80;
      }
    }
  }

  /** The sentiment of a text whose base lexicon score is `baseScore`. */
  function SentimentOf(baseScore: int, text: string): Sentiment {
    Classify((baseScore + OverrideScore(LowerWords(text))) as real)
  }

  /** `analyzeSentiment`: the override loop over the lower-cased tokens, then
      normalisation, label and confidence. */
  method AnalyzeSentiment(baseScore: int, text: string) returns (s: Sentiment)
    ensures s == SentimentOf(baseScore, text)
    ensures -1.0 <= s.score <= 1.0 && 0.0 <= s.confidence <= 1.0
  {
    var enhancedScore := baseScore;
    var words := LowerWords(text);
    var i := 0;
    while i < |words|
      invariant 0 <= i <= |words|
      invariant enhancedScore == baseScore + OverrideScore(words[..i])
    {
      assert words[..i + 1][..i] == words[..i];
      if MatchesAny(words[i], PositiveWords) {
        enhancedScore := enhancedScore + 2;
      }
      if MatchesAny(words[i], NegativeWords) {
        enhancedScore := enhancedScore - 2;
      }
      i := i + 1;
    }
    assert words[..i] == words;
    var e := enhancedScore as real;
    var normalizedScore := Normalize(e);
    var polarity: Label;
    if e > 0.5 {
      polarity := Positive;
    } else if e < -0.5 {
      polarity := Negative;
    } else {
      polarity := Neutral;
    }
    var confidence := RawConfidence(e);
    s := Sentiment(normalizedScore, polarity, Round2(confidence));
  }

  /** The empty text, whose base lexicon score is 0, is neutral with score 0
      and confidence 0.8. */
  lemma EmptyTextSentiment()
    ensures SentimentOf(0, "") == Sentiment(0.0, Neutral, 0.8)
  {
    assert LowerWords("") == [""];
    EmptyTokenNeutral();
    assert OverrideScore([""]) == OverrideScore([]) + TokenDelta("");
    IntegerScore(0);
  }
}
