/** The category pass of the analysis service: every lower-cased token is
    matched against the keyword lists of a fixed ten-bucket taxonomy, and the
    first bucket with the highest positive score names the category. */
module ContentCategory {
  import opened TextOps

  datatype Bucket = Bucket(name: string, keywords: seq<string>)

  /** One `[category, score]` entry of the score table. */
  datatype ScoreEntry = ScoreEntry(category: string, score: nat)

  /** The fallback category. */
  const General: string := "general"

  /** The taxonomy, in declaration order. */
  const Categories: seq<Bucket> := [
    Bucket("personal", [
      "personal", "diary", "journal", "feeling", "emotion", "family", "friend",
      "kişisel", "günlük", "his", "duygu", "aile", "arkadaş", "sevgili", "ilişki",
      "güzel", "gün", "mutlu", "sevinçli", "keyifli"]),
    Bucket("work", [
      "work", "job", "project", "meeting", "deadline", "task", "business", "office",
      "iş", "işe", "proje", "toplantı", "görev", "ofis", "çalışma", "maaş", "patron"]),
    Bucket("education", [
      "ders", "okul", "üniversite", "sınav", "ödev", "araştırma", "kitap", "eğitim",
      "study", "learn", "school", "university", "exam", "homework", "research", "book"]),
    Bucket("health", [
      "sağlık", "doktor", "ilaç", "egzersiz", "diyet", "spor", "hastane",
      "health", "doctor", "medicine", "exercise", "diet", "wellness", "fitness"]),
    Bucket("finance", [
      "para", "bütçe", "harcama", "yatırım", "banka", "maliyet", "fiyat", "ücret",
      "money", "budget", "expense", "investment", "bank", "financial", "cost", "price"]),
    Bucket("travel", [
      "seyahat", "tatil", "uçak", "otel", "gezi", "yolculuk", "ülke", "şehir",
      "travel", "trip", "vacation", "flight", "hotel", "destination", "journey"]),
    Bucket("food", [
      "yemek", "tarif", "restoran", "mutfak", "kahvaltı", "öğle", "akşam", "lezzetli",
      "food", "recipe", "restaurant", "cooking", "meal", "dinner", "lunch", "breakfast"]),
    Bucket("technology", [
      "teknoloji", "yazılım", "uygulama", "bilgisayar", "program", "kod", "dijital",
      "technology", "software", "app", "computer", "programming", "code", "digital"]),
    Bucket("shopping", [
      "alışveriş", "satın", "mağaza", "ürün", "sipariş", "teslimat", "market",
      "shopping", "buy", "purchase", "store", "product", "order", "delivery"]),
    Bucket("entertainment", [
      "film", "müzik", "oyun", "eğlence", "hobi", "spor", "sinema", "konser",
      "movie", "music", "game", "entertainment", "fun", "hobby", "sport"])
  ]

  /** The bucket names are distinct, and none is the fallback. */
  lemma NamesDistinct()
    ensures |Categories| == 10
    ensures forall i, j :: 0 <= i < j < |Categories| ==> Categories[i].name != Categories[j].name
    ensures forall i :: 0 <= i < |Categories| ==> Categories[i].name != General
  {
  }

  /** `words.filter(w => Matches(w, keyword)).length`. */
  function HitCount(words: seq<string>, keyword: string): (n: nat)
    ensures n <= |words|
  {
    if words == [] then 0
    else HitCount(words[..|words| - 1], keyword) +
         (if Matches(words[|words| - 1], keyword) then 1 else 0)
  }

  /** A bucket's score: for each of its keywords, the number of tokens that
      match it. */
  function BucketScore(words: seq<string>, keywords: seq<string>): nat {
    if keywords == [] then 0
    else BucketScore(words, keywords[..|keywords| - 1]) + HitCount(words, keywords[|keywords| - 1])
  }

  /** `Object.entries(categoryScores)` once the table is filled: one entry per
      bucket, in declaration order. */
  function Scores(words: seq<string>): (es: seq<ScoreEntry>)
    ensures |es| == |Categories|
    ensures forall k :: 0 <= k < |Categories| ==>
      es[k] == ScoreEntry(Categories[k].name, BucketScore(words, Categories[k].keywords))
  {
    seq(|Categories|, k requires 0 <= k < |Categories| =>
      ScoreEntry(Categories[k].name, BucketScore(words, Categories[k].keywords)))
  }

  /** The `reduce` that keeps an entry only when its score is strictly greater
      than the best so far, starting from `{ general, 0 }`. */
  function Reduce(es: seq<ScoreEntry>): ScoreEntry {
    if es == [] then ScoreEntry(General, 0)
    else
      var best := Reduce(es[..|es| - 1]);
      if es[|es| - 1].score > best.score then es[|es| - 1] else best
  }

  /** Entry `k` has the highest score and every earlier entry a lower one. */
  ghost predicate FirstMax(es: seq<ScoreEntry>, k: int) {
    0 <= k < |es| &&
    (forall j :: 0 <= j < |es| ==> es[j].score <= es[k].score) &&
    (forall j :: 0 <= j < k ==> es[j].score < es[k].score)
  }

  /** The reduce yields the fallback with score 0 when every score is 0, and
      otherwise the first entry with the highest score. */
  lemma {:induction false} ReduceFirstMax(es: seq<ScoreEntry>)
    ensures forall j :: 0 <= j < |es| ==> es[j].score <= Reduce(es).score
    ensures Reduce(es).score == 0 ==> Reduce(es) == ScoreEntry(General, 0)
    ensures Reduce(es).score > 0 ==> exists k :: FirstMax(es, k) && Reduce(es) == es[k]
  {
    if es != [] {
      var n := |es| - 1;
      var init := es[..n];
      ReduceFirstMax(init);
      var best := Reduce(init);
      assert forall j :: 0 <= j < n ==> es[j] == init[j];
      if es[n].score > best.score {
        assert Reduce(es) == es[n];
        assert FirstMax(es, n);
      } else {
        assert Reduce(es) == best;
        if best.score > 0 {
          var k :| FirstMax(init, k) && best == init[k];
          assert FirstMax(es, k);
        }
      }
    }
  }

  /** The category of a token list: the reduce's winner when its score is
      positive, the fallback otherwise. */
  function CategoryOf(words: seq<string>): string {
    var best := Reduce(Scores(words));
    if best.score > 0 then best.category else General
  }

  /** The category is "general" exactly when every bucket scores 0; otherwise it
      is the name of the first bucket, in declaration order, with the highest
      score. */
  lemma CategoryChoice(words: seq<string>)
    ensures CategoryOf(words) == General <==>
      forall k :: 0 <= k < |Categories| ==> BucketScore(words, Categories[k].keywords) == 0
    ensures CategoryOf(words) != General ==>
      exists k :: FirstMax(Scores(words), k) && Scores(words)[k].score > 0 &&
        CategoryOf(words) == Categories[k].name
  {
    var es := Scores(words);
    ReduceFirstMax(es);
    NamesDistinct();
    if Reduce(es).score > 0 {
      var k :| FirstMax(es, k) && Reduce(es) == es[k];
      assert CategoryOf(words) == Categories[k].name;
    } else {
      forall k | 0 <= k < |Categories| ensures BucketScore(words, Categories[k].keywords) == 0 {
        assert es[k].score <= Reduce(es).score;
      }
    }
  }

  /** The result always belongs to the closed taxonomy or is the fallback. */
  lemma CategoryInTaxonomy(words: seq<string>)
    ensures CategoryOf(words) == General ||
      exists k :: 0 <= k < |Categories| && CategoryOf(words) == Categories[k].name
  {
    CategoryChoice(words);
  }

  lemma {:induction false} HitCountAppend(w1: seq<string>, w2: seq<string>, keyword: string)
    ensures HitCount(w1 + w2, keyword) == HitCount(w1, keyword) + HitCount(w2, keyword)
    decreases |w2|
  {
    if w2 == [] {
      assert w1 + w2 == w1;
    } else {
      assert (w1 + w2)[..|w1 + w2| - 1] == w1 + w2[..|w2| - 1];
      HitCountAppend(w1, w2[..|w2| - 1], keyword);
    }
  }

  /** Scores add up over the tokens: a bucket's score on two token lists put
      together is the sum of its scores on each. */
  lemma {:induction false} BucketScoreAppend(w1: seq<string>, w2: seq<string>, keywords: seq<string>)
    ensures BucketScore(w1 + w2, keywords) == BucketScore(w1, keywords) + BucketScore(w2, keywords)
  {
    if keywords != [] {
      BucketScoreAppend(w1, w2, keywords[..|keywords| - 1]);
      HitCountAppend(w1, w2, keywords[|keywords| - 1]);
    }
  }

  /** The empty token matches every keyword. */
  lemma {:induction false} EmptyTokenHits(words: seq<string>, keyword: string)
    requires "" in words
    ensures HitCount(words, keyword) >= 1
  {
    if words[|words| - 1] == "" {
      IncludesEmpty(keyword);
      assert Matches("", keyword);
    } else {
      assert "" in words[..|words| - 1] by {
        var i :| 0 <= i < |words| && words[i] == "";
        assert words[..|words| - 1][i] == "";
      }
      EmptyTokenHits(words[..|words| - 1], keyword);
    }
  }

  lemma {:induction false} EmptyTokenScore(words: seq<string>, keywords: seq<string>)
    requires "" in words
    ensures BucketScore(words, keywords) >= |keywords|
  {
    if keywords != [] {
      EmptyTokenScore(words, keywords[..|keywords| - 1]);
      EmptyTokenHits(words, keywords[|keywords| - 1]);
    }
  }

  /** A token list that holds the empty token (an empty title, or a text with
      leading or trailing white space) gives every bucket at least as many
      points as it has keywords, so the category is never "general". */
  lemma EmptyTokenNeverGeneral(words: seq<string>)
    requires "" in words
    ensures CategoryOf(words) != General
  {
    EmptyTokenScore(words, Categories[0].keywords);
    CategoryChoice(words);
  }

  /** A token that matches a keyword counts for it. */
  lemma {:induction false} MatchingTokenHits(words: seq<string>, keyword: string, w: string)
    requires w in words && Matches(w, keyword)
    ensures HitCount(words, keyword) >= 1
  {
    if words[|words| - 1] != w {
      assert w in words[..|words| - 1] by {
        var i :| 0 <= i < |words| && words[i] == w;
        assert words[..|words| - 1][i] == w;
      }
      MatchingTokenHits(words[..|words| - 1], keyword, w);
    }
  }

  /** A bucket scores at least the hits of each of its keywords. */
  lemma {:induction false} KeywordScore(words: seq<string>, keywords: seq<string>, j: nat)
    requires j < |keywords|
    ensures BucketScore(words, keywords) >= HitCount(words, keywords[j])
  {
    if j < |keywords| - 1 {
      KeywordScore(words, keywords[..|keywords| - 1], j);
    }
  }

  /** As soon as one token matches one keyword of one bucket, the category is
      not "general". */
  lemma MatchNeverGeneral(words: seq<string>, w: string, k: nat, j: nat)
    requires k < |Categories| && j < |Categories[k].keywords|
    requires w in words && Matches(w, Categories[k].keywords[j])
    ensures CategoryOf(words) != General
  {
    MatchingTokenHits(words, Categories[k].keywords[j], w);
    KeywordScore(words, Categories[k].keywords, j);
    CategoryChoice(words);
  }

  /** The two empty tokens of a blank note match every keyword. */
  lemma {:induction false} BlankScore(keywords: seq<string>)
    ensures BucketScore(["", ""], keywords) == 2 * |keywords|
  {
    if keywords != [] {
      var kw := keywords[|keywords| - 1];
      BlankScore(keywords[..|keywords| - 1]);
      IncludesEmpty(kw);
      assert Matches("", kw);
      assert ["", ""][..1] == [""];
      assert HitCount(["", ""], kw) == 2;
    }
  }

  /** A blank note (title and content both empty) is filed under "personal",
      the bucket with the most keywords, not under "general". */
  lemma BlankNotePersonal()
    ensures CategoryOf(["", ""]) == "personal"
  {
    var words := ["", ""];
    var es := Scores(words);
    forall k | 0 <= k < |Categories| ensures es[k].score == 2 * |Categories[k].keywords| {
      BlankScore(Categories[k].keywords);
    }
    assert forall k :: 0 <= k < |Categories| ==> |Categories[k].keywords| <= |Categories[0].keywords|;
    CategoryChoice(words);
    var k :| FirstMax(es, k) && es[k].score > 0 && CategoryOf(words) == Categories[k].name;
    assert k == 0;
  }

  /** `categorizeContent`: fills the score table bucket by bucket and keyword by
      keyword, then reduces it. */
  method Categorize(text: string) returns (category: string)
    ensures category == CategoryOf(LowerWords(text))
    ensures category == General || exists k :: 0 <= k < |Categories| && category == Categories[k].name
  {
    var words := LowerWords(text);
    NamesDistinct();
    var categoryScores: map<string, nat> := map[];
    var b := 0;
    while b < |Categories|
      invariant 0 <= b <= |Categories|
      invariant forall k :: 0 <= k < b ==> Categories[k].name in categoryScores && categoryScores[Categories[k].name] == 0
    {
      categoryScores := categoryScores[Categories[b].name := 0];
      b := b + 1;
    }
    b := 0;
    while b < |Categories|
      invariant 0 <= b <= |Categories|
      invariant forall k :: 0 <= k < |Categories| ==> Categories[k].name in categoryScores
      invariant forall k :: 0 <= k < |Categories| ==>
        categoryScores[Categories[k].name] == if k < b then BucketScore(words, Categories[k].keywords) else 0
    {
      var name := Categories[b].name;
      var keywords := Categories[b].keywords;
      var j := 0;
      while j < |keywords|
        invariant 0 <= j <= |keywords|
        invariant forall k :: 0 <= k < |Categories| ==> Categories[k].name in categoryScores
        invariant categoryScores[name] == BucketScore(words, keywords[..j])
        invariant forall k :: 0 <= k < |Categories| && k != b ==>
          categoryScores[Categories[k].name] == if k < b then BucketScore(words, Categories[k].keywords) else 0
      {
        var keywordCount := HitCount(words, keywords[j]);
        assert keywords[..j + 1][..j] == keywords[..j];
        categoryScores := categoryScores[name := categoryScores[name] + keywordCount];
        j := j + 1;
      }
      assert keywords[..j] == keywords;
      b := b + 1;
    }
    var best := ScoreEntry(General, 0);
    b := 0;
    while b < |Categories|
      invariant 0 <= b <= |Categories|
      invariant best == Reduce(Scores(words)[..b])
    {
      var entry := ScoreEntry(Categories[b].name, categoryScores[Categories[b].name]);
      assert Scores(words)[..b + 1][..b] == Scores(words)[..b];
      if entry.score > best.score {
        best := entry;
      }
      b := b + 1;
    }
    assert Scores(words)[..b] == Scores(words);
    category := if best.score > 0 then best.category else General;
    CategoryInTaxonomy(words);
  }
}
