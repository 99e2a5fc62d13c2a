/** The analysis service's entry point: the sentiment, category and keywords of
    a note are read from its title and content together, its summary from the
    content alone. */
module AiAnalysis {
  import opened TextOps
  import SentimentScorer
  import ContentCategory
  import KeywordExtraction
  import SummaryGeneration

  /** The `AnalysisResult` record; an absent summary is `None`. */
  datatype AnalysisResult = AnalysisResult(
    sentiment: SentimentScorer.Sentiment,
    category: string,
    keywords: seq<string>,
    summary: Option<string>)

  /** The text the first three passes read: the title, one space, the content. */
  function FullText(title: string, content: string): string {
    title + " " + content
  }

  /** The analysis of a note whose full text has base lexicon score `baseScore`. */
  function Analysis(baseScore: int, title: string, content: string): AnalysisResult {
    var fullText := FullText(title, content);
    AnalysisResult(
      SentimentScorer.SentimentOf(baseScore, fullText),
      ContentCategory.CategoryOf(LowerWords(fullText)),
      KeywordExtraction.TopKeywords(KeywordExtraction.Candidates(fullText)),
      SummaryGeneration.GenerateSummary(content))
  }

  /** `analyzeContent`: runs the four passes and gathers their results. */
  method AnalyzeContent(baseScore: int, title: string, content: string) returns (r: AnalysisResult)
    ensures r == Analysis(baseScore, title, content)
    ensures -1.0 <= r.sentiment.score <= 1.0 && 0.0 <= r.sentiment.confidence <= 1.0
    ensures r.category == ContentCategory.General ||
      exists k :: 0 <= k < |ContentCategory.Categories| && r.category == ContentCategory.Categories[k].name
    ensures |r.keywords| <= KeywordExtraction.TopCount
    ensures |content| < SummaryGeneration.MinLength ==> r.summary == None
    ensures r.summary.Some? ==> |r.summary.value| <= SummaryGeneration.MaxLength
  {
    var fullText := title + " " + content;
    var sentimentResult := SentimentScorer.AnalyzeSentiment(baseScore, fullText);
    var category := ContentCategory.Categorize(fullText);
    var keywords := KeywordExtraction.ExtractKeywords(fullText);
    var summary := SummaryGeneration.GenerateSummary(content);
    r := AnalysisResult(sentimentResult, category, keywords, summary);
  }

  /** The returned keywords are distinct, at most five, and each is a word of
      more than two lower-case ASCII letters, digits or underscores, not a stop
      word, found in the lower-cased title and content. */
  lemma AnalysisKeywords(baseScore: int, title: string, content: string)
    ensures var kws := Analysis(baseScore, title, content).keywords;
      |kws| <= KeywordExtraction.TopCount &&
      (forall i, j :: 0 <= i < j < |kws| ==> kws[i] != kws[j]) &&
      forall i :: 0 <= i < |kws| ==>
        |kws[i]| > 2 && kws[i] !in KeywordExtraction.StopWords &&
        Includes(Lower(FullText(title, content)), kws[i])
  {
    var ws := KeywordExtraction.Candidates(FullText(title, content));
    var kws := Analysis(baseScore, title, content).keywords;
    KeywordExtraction.TopKeywordsSpec(ws);
    forall i | 0 <= i < |kws|
      ensures |kws[i]| > 2 && kws[i] !in KeywordExtraction.StopWords &&
        Includes(Lower(FullText(title, content)), kws[i])
    {
      KeywordExtraction.CandidateShape(FullText(title, content), kws[i]);
    }
  }

  /** With six or more distinct counted words, exactly five keywords come
      back, by non-increasing frequency. */
  lemma KeywordCap(baseScore: int, title: string, content: string)
    requires |KeywordExtraction.Distinct(KeywordExtraction.Candidates(FullText(title, content)))| > KeywordExtraction.TopCount
    ensures var ws := KeywordExtraction.Candidates(FullText(title, content));
      var kws := Analysis(baseScore, title, content).keywords;
      |kws| == KeywordExtraction.TopCount &&
      forall i, j :: 0 <= i < j < |kws| ==>
        KeywordExtraction.Occurrences(ws, kws[i]) >= KeywordExtraction.Occurrences(ws, kws[j])
  {
    KeywordExtraction.TopKeywordsSpec(KeywordExtraction.Candidates(FullText(title, content)));
  }

  /** The title never changes the summary; a content of at least 100
      characters gets one exactly when it has content or is longer than 150. */
  lemma SummaryFromContent(baseScore: int, title1: string, title2: string, content: string)
    ensures Analysis(baseScore, title1, content).summary == Analysis(baseScore, title2, content).summary
    ensures |content| >= SummaryGeneration.MinLength ==>
      (Analysis(baseScore, title1, content).summary.Some? <==>
        SummaryGeneration.HasContent(content) || |content| > SummaryGeneration.MaxLength)
  {
    SummaryGeneration.SummarySpec(content);
  }

  /** An empty title makes the full text start with a space, hence with the
      empty token, so the category is never "general". */
  lemma EmptyTitleNeverGeneral(baseScore: int, content: string)
    ensures Analysis(baseScore, "", content).category != ContentCategory.General
  {
    var fullText := FullText("", content);
    assert fullText[0] == ' ';
    LowerWordsLeadingEmpty(fullText);
    ContentCategory.EmptyTokenNeverGeneral(LowerWords(fullText));
  }

  /** A token that is part of one taxonomy keyword is enough to leave "general":
      the note ("x", "x") is categorised, since "x" is part of "exam". */
  lemma OneLetterNote(baseScore: int)
    ensures Analysis(baseScore, "x", "x").category != ContentCategory.General
  {
    var fullText := FullText("x", "x");
    assert fullText == ['x', ' ', 'x'];
    assert Lower(fullText) == fullText;
    assert LeadingRun([' ', 'x'], IsSpace) == 1;
    SplitWhole(['x'], IsSpace);
    assert Split([' ', 'x'], IsSpace) == ["", "x"];
    assert LowerWords(fullText) == ["x", "x"];
    var exam := ContentCategory.Categories[2].keywords[12];
    assert exam == "exam";
    assert PieceAt(exam, "x", 1);
    assert Matches("x", exam);
    ContentCategory.MatchNeverGeneral(["x", "x"], "x", 2, 12);
  }

  /** A blank note: the empty tokens cancel out in the override pass, so the
      sentiment is the base score's alone; it is filed under "personal"; it has
      no keywords and no summary. */
  lemma BlankNote(baseScore: int)
    ensures Analysis(baseScore, "", "") ==
      AnalysisResult(SentimentScorer.Classify(baseScore as real), "personal", [], None)
  {
    var fullText := FullText("", "");
    assert fullText == [' '];
    assert Lower(fullText) == fullText;
    assert ReplaceNonWord(fullText) == fullText;
    assert LeadingRun(fullText, IsSpace) == 1;
    assert Split(fullText, IsSpace) == ["", ""];
    assert LowerWords(fullText) == ["", ""];
    SentimentScorer.EmptyTokenNeutral();
    assert ["", ""][..1] == [""];
    assert SentimentScorer.OverrideScore(["", ""]) == 0;
    ContentCategory.BlankNotePersonal();
    assert KeywordExtraction.CleanTokens(fullText) == ["", ""];
    assert KeywordExtraction.Candidates(fullText) == [];
    assert KeywordExtraction.Entries([]) == [];
  }
}
