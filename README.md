# Note-content analyser, modelled in Dafny

The server of this note-taking application runs every note through one
deterministic text analyser, `analyzeContent(title, content)` in
`server/src/services/aiAnalysis.service.ts`. It returns four things:

- a **sentiment**: a base lexicon score for the text, plus 2 for every
  lower-cased white-space token that matches one of 29 positive words, and
  minus 2 for every token that matches one of 23 negative words. The sum is
  normalised to [-1, 1], labelled with the thresholds ±0.5 on the raw sum, and
  given a confidence rounded to hundredths;
- a **category**: the first of ten keyword buckets with the highest positive
  score, or `"general"`;
- up to five **keywords**: the most frequent cleaned tokens longer than two
  characters that are not stop words;
- a **summary**: for a content of at least 100 characters, its first
  non-blank sentence, cut to 147 characters plus `"..."` when longer than 150.
  A content with no non-blank sentence gets its own 150-character cut when it
  is longer than 150 characters, and no summary otherwise.

Sentiment, category and keywords read `title + " " + content`. The summary
reads the content alone. A token "matches" a word when either contains the
other, so an empty token matches everything.

The model has six modules, one file each:

| file | module | models |
|---|---|---|
| `text.dfy` | `TextOps` | the JavaScript built-ins the analyser uses: `toLowerCase`, `\s`, `\w`, `split` on a separator run, `includes`, `trim`, `replace(/[^\w\s]/g, ' ')` |
| `sentiment.dfy` | `SentimentScorer` | `analyzeSentiment` |
| `category.dfy` | `ContentCategory` | the `CATEGORIES` table and `categorizeContent` |
| `keywords.dfy` | `KeywordExtraction` | `extractKeywords` |
| `summary.dfy` | `SummaryGeneration` | `generateSummary` |
| `analysis.dfy` | `AiAnalysis` | `analyzeContent` and the `AnalysisResult` record |

`generateSummary` is pure in the source. It is a function here, and its
properties are lemmas. The passes that update variables in place are methods
with loops, and `analyzeContent` is a method that calls them:

- `AnalyzeSentiment` updates `enhancedScore`, and is proved equal to `SentimentOf`;
- `Categorize` fills the `categoryScores` table and then reduces it, and is
  proved equal to `CategoryOf`;
- `ExtractKeywords` fills the `wordCount` table through `CountWords`, which is
  proved to build `CountTable` with its keys in the order `Distinct`, and
  then sorts and slices; it is proved equal to `TopKeywords` of the counted tokens;
- `AnalyzeContent` runs the passes, and is proved equal to `Analysis`.

What the source promises is then proved about those specification functions.

JavaScript details that affect results are written out:

- `split(/\s+/)` always returns at least one piece. A leading or trailing
  separator gives an empty piece.
- `includes` is a substring test.
- `\s` is the exact ECMAScript white-space set.
- `\w` is ASCII only, so `replace` turns Turkish letters into spaces.
- `sort` is stable. It is modelled as an insertion sort, and proved to be a
  sorted, stable permutation.
- `Object.entries` lists keys in the order they were first set. The
  frequency table carries that order.
- `Math.round(x)` is the floor of `x + 0.5`. It is computed exactly over reals.

Behaviour worth knowing, each point proved about the model:

- `analyzeContent("x", "x")` is not filed under `"general"`. "x" is part of
  "exam", "exercise" and "expense" (`AiAnalysis.OneLetterNote`).
- An empty title, or an empty note, is never filed under `"general"`
  (`AiAnalysis.EmptyTitleNeverGeneral`, `AiAnalysis.BlankNote`).
- A content of exactly 100 characters without a terminator is not truncated.
  Its summary is the content, trimmed (`SummaryGeneration.NoTerminatorSummary`).
  If that content is blank, there is no summary (`AiAnalysis.SummaryFromContent`).
- A raw enhanced score of 0.6 would be labelled positive with score 0.12
  (`SentimentScorer.RawThresholdExample`). The lexicon scores and the +2/-2
  adjustments are whole numbers, though, so the enhanced score never takes
  that value; for whole-number scores, neutral means exactly 0
  (`SentimentScorer.IntegerScore`).

## Model

| member | source | states |
|---|---|---|
| TextOps.IsSpace | server/src/services/aiAnalysis.service.ts:80 | definition of `\s`; properties in `LowerChar`, `TrimSpec`, `SplitRoundTrip` |
| TextOps.IsWordChar | server/src/services/aiAnalysis.service.ts:162 | definition of `\w`; properties in `LowerChar`, `ReplaceNonWord` |
| TextOps.Includes | server/src/services/aiAnalysis.service.ts:84 | definition of `includes`; properties in `IncludesEmpty`, `SplitIncluded`, `TrimIncluded` |
| TextOps.LowerChar | server/src/services/aiAnalysis.service.ts:80 | `A`-`Z` become `a`-`z` and every other word character is unchanged; white space stays white space and word characters stay word characters; every word character maps to a-z, 0-9 or `_` |
| TextOps.Lower | server/src/services/aiAnalysis.service.ts:80 | definition of `toLowerCase`, one character at a time (the alphabet it covers is under "## Left out"); properties in `LowerChar`, `CandidateShape` |
| TextOps.ReplaceNonWord | server/src/services/aiAnalysis.service.ts:162 | same length; every character becomes a word character or white space; a character is a word character afterwards exactly when it was one before; word characters are unchanged |
| TextOps.IncludesEmpty | server/src/services/aiAnalysis.service.ts:84 | `includes("")` holds for every string |
| TextOps.Split | server/src/services/aiAnalysis.service.ts:80 | a split never returns an empty list |
| TextOps.SplitFirst | server/src/services/aiAnalysis.service.ts:80 | the first piece is the longest prefix without a separator |
| TextOps.SplitNoSeparator | server/src/services/aiAnalysis.service.ts:163 | no piece holds a separator character |
| TextOps.SplitConcat | server/src/services/aiAnalysis.service.ts:163 | the pieces put together are exactly the text's non-separator characters, in order |
| TextOps.SplitIncluded | server/src/services/aiAnalysis.service.ts:163 | every piece occurs in the text |
| TextOps.SplitInnerNonEmpty | server/src/services/aiAnalysis.service.ts:182 | only the first and the last piece can be empty |
| TextOps.SplitLeadingEmpty | server/src/services/aiAnalysis.service.ts:80 | an empty text, or one that starts with a separator, gives an empty first piece |
| TextOps.SplitWhole | server/src/services/aiAnalysis.service.ts:182 | a text without separators splits into itself |
| TextOps.SplitRoundTrip | server/src/services/aiAnalysis.service.ts:163 | the pieces, with one non-empty separator run between each pair, make up the text again; with `SplitNoSeparator` and `SplitInnerNonEmpty` this fixes every piece's boundaries |
| TextOps.TrimStart | server/src/services/aiAnalysis.service.ts:184 | the result is a suffix that does not start with white space, and everything removed is white space |
| TextOps.TrimEnd | server/src/services/aiAnalysis.service.ts:184 | the result is a prefix that does not end with white space, and everything removed is white space |
| TextOps.Trim | server/src/services/aiAnalysis.service.ts:184 | a non-empty result starts and ends with something other than white space; the result is empty exactly when the text is all white space; that nothing else is removed is `TrimSpec` |
| TextOps.TrimSpec | server/src/services/aiAnalysis.service.ts:184 | only white space is removed: the result stands in the text right after its leading white-space run, and everything after it is white space |
| TextOps.TrimIncluded | server/src/services/aiAnalysis.service.ts:184 | the trimmed text is a piece of the text |
| TextOps.LowerWords | server/src/services/aiAnalysis.service.ts:80 | `text.toLowerCase().split(/\s+/)` returns at least one token |
| TextOps.LowerWordsLeadingEmpty | server/src/services/aiAnalysis.service.ts:119 | a text that is empty or starts with white space yields the empty token first |
| TextOps.Matches | server/src/services/aiAnalysis.service.ts:84 | definition of the match `word.includes(w) \|\| w.includes(word)`, shared by the sentiment and category passes (lines 84, 87, 132); properties in `TokenDelta`, `EmptyTokenNeutral`, `EmptyTokenScore`, `MatchNeverGeneral` |
| SentimentScorer.MatchesAny | server/src/services/aiAnalysis.service.ts:84-87 | definition of `list.some(...)`; properties in `TokenDelta`, `OverrideByCounts` |
| SentimentScorer.Sentiment | server/src/services/aiAnalysis.service.ts:6-10 | definition of the `sentiment` record: score, label and confidence; properties in `Classify` |
| SentimentScorer.PositiveWords | server/src/services/aiAnalysis.service.ts:65-70 | definition of the 29 words that add 2; properties in `TokenDelta`, `OverrideByCounts` |
| SentimentScorer.NegativeWords | server/src/services/aiAnalysis.service.ts:72-76 | definition of the 23 words that take 2; properties in `TokenDelta`, `OverrideByCounts` |
| SentimentScorer.OverrideScore | server/src/services/aiAnalysis.service.ts:79-90 | definition of the `forEach` sum of the token adjustments; properties in `OverrideByCounts`, `AnalyzeSentiment` |
| SentimentScorer.SentimentOf | server/src/services/aiAnalysis.service.ts:61-115 | definition of `analyzeSentiment`; properties in `Classify`, `OverrideByCounts`, `AnalyzeSentiment` |
| SentimentScorer.TokenDelta | server/src/services/aiAnalysis.service.ts:83-90 | one token adds +2 exactly when it matches a positive word and no negative word, adds -2 exactly in the opposite case, and adds 0 otherwise |
| SentimentScorer.OverrideByCounts | server/src/services/aiAnalysis.service.ts:83-90 | the override is twice the number of tokens matching a positive word minus twice the number matching a negative word, so each token counts at most once per list; it lies within ±2 per token |
| SentimentScorer.EmptyTokenNeutral | server/src/services/aiAnalysis.service.ts:84-88 | the empty token matches both lists and contributes 0 |
| SentimentScorer.Normalize | server/src/services/aiAnalysis.service.ts:93 | the normalised score lies in [-1, 1]; it is `e / 5` inside [-5, 5] and clamps outside it |
| SentimentScorer.LabelOf | server/src/services/aiAnalysis.service.ts:99-108 | positive iff the raw score is > 0.5, negative iff < -0.5, neutral iff in [-0.5, 0.5] |
| SentimentScorer.RawConfidence | server/src/services/aiAnalysis.service.ts:99-108 | before rounding, the confidence lies in [0.6, 0.95] when positive or negative and in [0.4, 0.8] when neutral |
| SentimentScorer.Round2 | server/src/services/aiAnalysis.service.ts:113 | the rounded value is a whole number of hundredths within half a hundredth of its input |
| SentimentScorer.Round2Within | server/src/services/aiAnalysis.service.ts:113 | rounding keeps the confidence inside [0.6, 0.95] and inside [0.4, 0.8] |
| SentimentScorer.Classify | server/src/services/aiAnalysis.service.ts:92-114 | the score lies in [-1, 1]; both label thresholds hold as iffs on the raw score; the rounded confidence keeps its per-label bounds |
| SentimentScorer.RawThresholdExample | server/src/services/aiAnalysis.service.ts:99-101 | a raw score of 0.6 is labelled positive although its normalised score is 0.12 |
| SentimentScorer.IntegerScore | server/src/services/aiAnalysis.service.ts:79-113 | with whole-number scores, neutral means exactly 0, which gives score 0 and confidence 0.8; a non-zero score m has confidence 0.6 + 0.07 * min(\|m\|, 5) before rounding |
| SentimentScorer.AnalyzeSentiment | server/src/services/aiAnalysis.service.ts:61-115 | the loop computes `SentimentOf(baseScore, text)`; the score is in [-1, 1] and the confidence in [0, 1] |
| SentimentScorer.EmptyTextSentiment | server/src/services/aiAnalysis.service.ts:61-115 | the empty text with base score 0 gives score 0, neutral, confidence 0.8 |
| ContentCategory.Categories | server/src/services/aiAnalysis.service.ts:17-59 | the ten buckets and their keywords, in declaration order; properties in `NamesDistinct` |
| ContentCategory.BucketScore | server/src/services/aiAnalysis.service.ts:129-135 | definition of a bucket's score; properties in `BucketScoreAppend`, `EmptyTokenScore` |
| ContentCategory.Reduce | server/src/services/aiAnalysis.service.ts:139-143 | definition of the reduce; properties in `ReduceFirstMax` |
| ContentCategory.CategoryOf | server/src/services/aiAnalysis.service.ts:117-146 | definition of `categorizeContent`; properties in `CategoryChoice`, `CategoryInTaxonomy`, `Categorize` |
| ContentCategory.NamesDistinct | server/src/services/aiAnalysis.service.ts:17-59 | the ten bucket names are pairwise distinct, and none is "general" |
| ContentCategory.HitCount | server/src/services/aiAnalysis.service.ts:131-133 | a keyword's count is at most the number of tokens |
| ContentCategory.Scores | server/src/services/aiAnalysis.service.ts:129-139 | definition of `Object.entries(categoryScores)`, one entry per bucket in declaration order; properties in `CategoryChoice`, `Categorize` |
| ContentCategory.ReduceFirstMax | server/src/services/aiAnalysis.service.ts:139-143 | the reduce gives `{general, 0}` when every score is 0; otherwise it gives the first entry with the highest score |
| ContentCategory.CategoryChoice | server/src/services/aiAnalysis.service.ts:117-146 | "general" exactly when every bucket scores 0; otherwise the first bucket, in declaration order, with the highest positive score |
| ContentCategory.CategoryInTaxonomy | server/src/services/aiAnalysis.service.ts:145 | the category is "general" or one of the ten bucket names |
| ContentCategory.HitCountAppend | server/src/services/aiAnalysis.service.ts:131-133 | a keyword's hits on two token lists put together are the sum of its hits on each |
| ContentCategory.BucketScoreAppend | server/src/services/aiAnalysis.service.ts:129-135 | a bucket's score on two token lists put together is the sum of its scores on each |
| ContentCategory.EmptyTokenScore | server/src/services/aiAnalysis.service.ts:130-134 | with the empty token present, a bucket scores at least its number of keywords |
| ContentCategory.EmptyTokenNeverGeneral | server/src/services/aiAnalysis.service.ts:131-145 | a token list holding the empty token is never categorised "general" |
| ContentCategory.MatchNeverGeneral | server/src/services/aiAnalysis.service.ts:131-145 | one token matching one keyword of one bucket is enough to leave "general" |
| ContentCategory.BlankScore | server/src/services/aiAnalysis.service.ts:130-134 | the two empty tokens of a blank note give every bucket twice its number of keywords |
| ContentCategory.BlankNotePersonal | server/src/services/aiAnalysis.service.ts:117-146 | a blank note is categorised "personal" |
| ContentCategory.Categorize | server/src/services/aiAnalysis.service.ts:117-146 | the initialisation, the scoring loops and the reduce compute `CategoryOf` of the lower-cased tokens, which is "general" or a bucket name |
| KeywordExtraction.StopWords | server/src/services/aiAnalysis.service.ts:150-159 | definition of the 75 common words; properties in `CandidateShape`, `AnalysisKeywords` |
| KeywordExtraction.Kept | server/src/services/aiAnalysis.service.ts:164 | definition of the filter's test; properties in `FilterKept`, `CandidateShape` |
| KeywordExtraction.CleanTokens | server/src/services/aiAnalysis.service.ts:161-163 | definition of the cleaned tokens; properties in `CandidateShape` |
| KeywordExtraction.FilterKept | server/src/services/aiAnalysis.service.ts:164 | a word survives the filter exactly when it is in the input, is longer than two characters and is not a stop word; a kept word keeps its number of occurrences, any other word has none; the input order is kept (`FilterKeptAppend`, `FilterKeptOne`) |
| KeywordExtraction.FilterKeptAppend | server/src/services/aiAnalysis.service.ts:164 | filtering a concatenation is the concatenation of the filtered parts, so kept words stay in input order |
| KeywordExtraction.FilterKeptOne | server/src/services/aiAnalysis.service.ts:164 | a single word is kept exactly when it is longer than two characters and not a stop word |
| KeywordExtraction.Candidates | server/src/services/aiAnalysis.service.ts:161-164 | definition of the counted tokens; properties in `FilterKept`, `CandidateShape` |
| KeywordExtraction.CountTable | server/src/services/aiAnalysis.service.ts:167-170 | definition of the filled frequency table; properties in `CountTableSpec`, `CountWords` |
| KeywordExtraction.SortByCount | server/src/services/aiAnalysis.service.ts:173 | definition of the sort; properties in `SortPermutes`, `SortSorted`, `SortStable` |
| KeywordExtraction.TopKeywords | server/src/services/aiAnalysis.service.ts:172-175 | definition of the ranking; properties in `TopKeywordsSpec`, `ExtractKeywords` |
| KeywordExtraction.CandidateShape | server/src/services/aiAnalysis.service.ts:161-164 | every counted token is longer than two characters, is not a stop word, is made of a-z, 0-9 and `_` only, and occurs in the lower-cased text |
| KeywordExtraction.FirstIndex | server/src/services/aiAnalysis.service.ts:168-170 | the first occurrence of a word: there, and not earlier |
| KeywordExtraction.DistinctOrder | server/src/services/aiAnalysis.service.ts:167-172 | the table's keys are the words of the input, each once, in order of first occurrence |
| KeywordExtraction.CountTableSpec | server/src/services/aiAnalysis.service.ts:167-170 | after counting, the table's keys are the distinct words, and each maps to the number of its occurrences |
| KeywordExtraction.CountWords | server/src/services/aiAnalysis.service.ts:167-170 | the counting loop leaves the table `CountTable(words)` with its keys in the order `Distinct(words)` |
| KeywordExtraction.TableEntries | server/src/services/aiAnalysis.service.ts:172 | `Object.entries` of the filled table, in key order, is `Entries(words)` |
| KeywordExtraction.Entries | server/src/services/aiAnalysis.service.ts:172 | definition of the table's entries, one per distinct word in order of first occurrence, with its count; properties in `TableEntries`, `RankedOrder`, `TopKeywordsSpec` |
| KeywordExtraction.InsertPos | server/src/services/aiAnalysis.service.ts:173 | an inserted entry goes after every entry with a count at least as high, and before the first one with a lower count |
| KeywordExtraction.SortPermutes | server/src/services/aiAnalysis.service.ts:173 | the sort keeps the multiset of entries |
| KeywordExtraction.SortSorted | server/src/services/aiAnalysis.service.ts:173 | the sort orders the entries by non-increasing count |
| KeywordExtraction.SortStable | server/src/services/aiAnalysis.service.ts:173 | entries of equal count keep their relative order |
| KeywordExtraction.TopWords | server/src/services/aiAnalysis.service.ts:174-175 | definition of `.slice(0, 5).map(([word]) => word)`; properties in `TopKeywordsSpec` |
| KeywordExtraction.RankedOrder | server/src/services/aiAnalysis.service.ts:172-173 | the ranked entries go by non-increasing count, and equal counts go in order of first occurrence |
| KeywordExtraction.TopKeywordsSpec | server/src/services/aiAnalysis.service.ts:148-176 | the keywords are min(5, number of distinct words) distinct counted words, by non-increasing frequency, equal frequencies in order of first occurrence; a word left out means five were taken and it comes after the fifth |
| KeywordExtraction.ExtractKeywords | server/src/services/aiAnalysis.service.ts:148-176 | counting, sorting and slicing compute `TopKeywords(Candidates(text))`; at most five, each a counted token |
| SummaryGeneration.IsTerminator | server/src/services/aiAnalysis.service.ts:182 | definition of the class `[.!?]`; properties in `FirstSentenceShape`, `SummarySpec` |
| SummaryGeneration.NonBlank | server/src/services/aiAnalysis.service.ts:182 | filtering never adds segments; which segments survive is `NonBlankSpec` |
| SummaryGeneration.NonBlankSpec | server/src/services/aiAnalysis.service.ts:182 | exactly the segments that do not trim to nothing survive; none survives exactly when every segment is blank; the first survivor is the first segment that is not blank |
| SummaryGeneration.FirstSentence | server/src/services/aiAnalysis.service.ts:182-184 | reference definition of the first sentence, read without splitting; properties in `FirstNonBlankPiece`, `FirstSentenceShape`, `SummarySpec` |
| SummaryGeneration.Truncate | server/src/services/aiAnalysis.service.ts:186 | the cut is exactly 150 characters: the first 147 of the text, then "..." |
| SummaryGeneration.GenerateSummary | server/src/services/aiAnalysis.service.ts:178-192 | nothing for a content under 100 characters; any summary has at most 150 characters |
| SummaryGeneration.SkipFiller | server/src/services/aiAnalysis.service.ts:182 | what is skipped is white space and terminators only, and what remains starts with content |
| SummaryGeneration.FirstNonBlankPiece | server/src/services/aiAnalysis.service.ts:182-184 | there is a non-blank segment exactly when the text has a character that is neither white space nor a terminator; the first one, trimmed, is the first sentence read directly |
| SummaryGeneration.FirstSentenceShape | server/src/services/aiAnalysis.service.ts:182-184 | the first sentence is non-empty, holds no terminator, and has no white space at either end; it is a piece of the text preceded only by white space and terminators, and followed by the end of the text, white space or a terminator |
| SummaryGeneration.SummarySpec | server/src/services/aiAnalysis.service.ts:178-192 | `generateSummary` equals the reference: the first sentence (cut when over 150), else the cut content when over 150, else nothing |
| SummaryGeneration.SummaryForms | server/src/services/aiAnalysis.service.ts:183-191 | a summary is the first sentence, or a 150-character cut of it or of the content ending in "..." |
| SummaryGeneration.NoTerminatorSummary | server/src/services/aiAnalysis.service.ts:179-188 | a content of 100 to 150 characters with no terminator and some content is summarised by itself, trimmed |
| AiAnalysis.AnalysisResult | server/src/services/aiAnalysis.service.ts:5-14 | definition of the `AnalysisResult` record, with an absent summary as `None`; properties in `AnalyzeContent`, `BlankNote` |
| AiAnalysis.FullText | server/src/services/aiAnalysis.service.ts:195 | definition of `${title} ${content}`; properties in `EmptyTitleNeverGeneral`, `AnalysisKeywords` |
| AiAnalysis.Analysis | server/src/services/aiAnalysis.service.ts:194-207 | definition of `analyzeContent`; properties in `AnalyzeContent`, `AnalysisKeywords`, `SummaryFromContent`, `BlankNote` |
| AiAnalysis.AnalyzeContent | server/src/services/aiAnalysis.service.ts:194-207 | the record is `Analysis(baseScore, title, content)`, with all four passes' bounds |
| AiAnalysis.AnalysisKeywords | server/src/services/aiAnalysis.service.ts:199 | the returned keywords are at most five, distinct, longer than two characters, not stop words, and found in the lower-cased `title + " " + content` |
| AiAnalysis.KeywordCap | server/src/services/aiAnalysis.service.ts:172-175 | with six or more distinct counted words, exactly five keywords come back, by non-increasing frequency |
| AiAnalysis.SummaryFromContent | server/src/services/aiAnalysis.service.ts:200 | the title never changes the summary, for every content; a content of at least 100 characters gets one exactly when it has content or exceeds 150 characters |
| AiAnalysis.EmptyTitleNeverGeneral | server/src/services/aiAnalysis.service.ts:195-198 | with an empty title the category is never "general" |
| AiAnalysis.OneLetterNote | server/src/services/aiAnalysis.service.ts:195-198 | the note ("x", "x") is not categorised "general" |
| AiAnalysis.BlankNote | server/src/services/aiAnalysis.service.ts:194-207 | a blank note keeps the base score's sentiment, is categorised "personal", and has no keywords and no summary |

## Left out

- The `sentiment` library's AFINN lexicon score (lines 1-3, 62) is foreign code. It is a whole-number parameter, `baseScore`, of the sentiment pass and of `analyzeContent`.
- Floating point: scores, thresholds, normalisation and rounding are computed exactly over reals, without binary floating-point error.
- `toLowerCase` is modelled for ASCII, Latin-1 and the Turkish capitals Ğ and Ş. Every other capital is left as it is: the rest of Latin Extended-A and B (Ł, Ő, Ÿ, …), Greek, Cyrillic and other scripts, `İ`, whose lower case is two code units, and U+212A KELVIN SIGN, which JavaScript lowers to ASCII `k`. For the Kelvin sign the model's `LowerChar` keeps it a non-word character, whereas JavaScript's result is a word character.
- Strings are sequences of characters. UTF-16 surrogate pairs, which count as two in `length`, are not modelled.
- Object keys that look like integers (e.g. "2024") are listed first by `Object.entries` in the runtime. The model lists keys in insertion order, so equal counts go by first occurrence.
- Tokens that name `Object.prototype` properties (e.g. "constructor") read an inherited value from `wordCount[word] || 0`. The model treats them like any other word.
- The engine's sort algorithm is not modelled. The stable insertion sort `SortByCount` gives the same order for this comparator, because the engine's sort is stable.
- AiAnalysis.OneLetterNote: states only that the category is not "general". Which bucket wins is not proved; by the tie order it would be "education".
- Corpus analytics and bulk reanalysis (`getNotesAnalytics`, `reanalyzeAllNotes`) are not part of this model. Their bodies are absent from the repository.
- Controllers, routes, Mongoose models, authentication, e-mail, upload and the React client are request handling, persistence and UI, not analysis.
