/** The keyword pass of the analysis service: clean the text, drop short and
    common words, count the rest and keep the five most frequent, most frequent
    first, equal counts in order of first occurrence. */
module KeywordExtraction {
  import opened TextOps

  /** The English and Turkish words never returned as keywords. */
  const StopWords: set<string> := {
    "the", "a", "an", "and", "or", "but", "in", "on", "at", "to", "for", "of", "with",
    "by", "from", "up", "about", "into", "through", "during", "before", "after",
    "above", "below", "is", "are", "was", "were", "be", "been", "being", "have",
    "has", "had", "do", "does", "did", "will", "would", "could", "should", "may",
    "might", "must", "can", "this", "that", "these", "those", "i", "you", "he",
    "she", "it", "we", "they", "me", "him", "her", "us", "them",
    "bir", "bu", "şu", "ve", "ile", "için", "var", "yok", "ben", "sen", "o", "biz", "siz", "onlar"
  }

  /** How many keywords are returned at most. */
  const TopCount: nat := 5

  /** One `[word, count]` entry of the frequency table. */
  datatype Entry = Entry(word: string, count: nat)

  function Min(a: nat, b: nat): nat {
    if a < b then a else b
  }

  /** `text.toLowerCase().replace(/[^\w\s]/g, ' ').split(/\s+/)`. */
  function CleanTokens(text: string): seq<string> {
    Split(ReplaceNonWord(Lower(text)), IsSpace)
  }

  /** The filter: longer than two characters and not a stop word. */
  predicate Kept(w: string) {
    |w| > 2 && w !in StopWords
  }

  /** `.filter(word => word.length > 2 && !commonWords.has(word))`: a kept
      word keeps every one of its occurrences, any other word loses them all. */
  function FilterKept(ws: seq<string>): (r: seq<string>)
    ensures |r| <= |ws|
    ensures forall w :: w in r <==> w in ws && Kept(w)
    ensures forall w :: Occurrences(r, w) == if Kept(w) then Occurrences(ws, w) else 0
  {
    if ws == [] then []
    else
      var init := ws[..|ws| - 1];
      var last := ws[|ws| - 1];
      assert ws == init + [last];
      var kept := FilterKept(init);
      if Kept(last) then
        assert (kept + [last])[..|kept|] == kept;
        kept + [last]
      else kept
  }

  /** Filtering a concatenation filters each part: the filter keeps the
      input order. */
  lemma {:induction false} FilterKeptAppend(a: seq<string>, b: seq<string>)
    ensures FilterKept(a + b) == FilterKept(a) + FilterKept(b)
    decreases |b|
  {
    if b != [] {
      var init := b[..|b| - 1];
      var last := b[|b| - 1];
      assert (a + b)[..|a + b| - 1] == a + init;
      assert (a + b)[|a + b| - 1] == last;
      FilterKeptAppend(a, init);
    } else {
      assert a + b == a;
    }
  }

  /** A single word is kept exactly when it passes the test. */
  lemma FilterKeptOne(x: string)
    ensures FilterKept([x]) == if Kept(x) then [x] else []
  {
    assert [x][..0] == [];
  }

  /** The tokens that are counted. */
  function Candidates(text: string): seq<string> {
    FilterKept(CleanTokens(text))
  }

  /** Every counted token is longer than two characters, is not a stop word, is
      made of lower-case ASCII letters, digits and underscores only, and occurs
      in the lower-cased text. */
  lemma CandidateShape(text: string, w: string)
    requires w in Candidates(text)
    ensures |w| > 2 && w !in StopWords
    ensures forall k :: 0 <= k < |w| ==> ('a' <= w[k] <= 'z') || ('0' <= w[k] <= '9') || w[k] == '_'
    ensures Includes(Lower(text), w)
  {
    var low := Lower(text);
    var clean := ReplaceNonWord(low);
    var tokens := Split(clean, IsSpace);
    assert w in tokens;
    var t :| 0 <= t < |tokens| && tokens[t] == w;
    SplitNoSeparator(clean, IsSpace);
    SplitIncluded(clean, IsSpace);
    var i :| 0 <= i <= |clean| - |w| && PieceAt(clean, w, i);
    forall k | 0 <= k < |w|
      ensures low[i + k] == w[k] && IsWordChar(low[i + k])
    {
      assert clean[i + k] == w[k];
      assert !IsSpace(w[k]);
    }
    assert low[i..i + |w|] == w;
    assert PieceAt(low, w, i);
  }

  // ---------------------------------------------------------------------
  // the frequency table

  /** How often `w` occurs in `ws`. */
  function Occurrences(ws: seq<string>, w: string): nat {
    if ws == [] then 0
    else Occurrences(ws[..|ws| - 1], w) + (if ws[|ws| - 1] == w then 1 else 0)
  }

  /** The distinct words of `ws` in order of first occurrence: the order in
      which the frequency table receives its keys. */
  function Distinct(ws: seq<string>): seq<string> {
    if ws == [] then []
    else
      var d := Distinct(ws[..|ws| - 1]);
      if ws[|ws| - 1] in d then d else d + [ws[|ws| - 1]]
  }

  /** The position of the first occurrence of `w`. */
  function FirstIndex(ws: seq<string>, w: string): (i: nat)
    requires w in ws
    ensures i < |ws| && ws[i] == w
    ensures forall k :: 0 <= k < i ==> ws[k] != w
  {
    var init := ws[..|ws| - 1];
    if w in init then FirstIndex(init, w) else |ws| - 1
  }

  /** `Distinct` lists each word of `ws` exactly once, in order of first occurrence. */
  lemma {:induction false} DistinctOrder(ws: seq<string>)
    ensures forall w :: w in Distinct(ws) <==> w in ws
    ensures forall i, j :: 0 <= i < j < |Distinct(ws)| ==> Distinct(ws)[i] != Distinct(ws)[j]
    ensures forall i, j :: 0 <= i < j < |Distinct(ws)| ==>
      FirstIndex(ws, Distinct(ws)[i]) < FirstIndex(ws, Distinct(ws)[j])
  {
    if ws != [] {
      var init := ws[..|ws| - 1];
      var last := ws[|ws| - 1];
      DistinctOrder(init);
      assert ws == init + [last];
      var d := Distinct(init);
      forall w | w in init ensures FirstIndex(ws, w) == FirstIndex(init, w) {
      }
      if last !in d {
        var e := d + [last];
        forall i, j | 0 <= i < j < |e| ensures FirstIndex(ws, e[i]) < FirstIndex(ws, e[j]) {
          assert e[i] == d[i];
          if j < |d| { assert e[j] == d[j]; }
        }
      }
    }
  }

  /** The frequency table as `Object.entries` lists it: one entry per distinct
      word, in order of first occurrence, with its number of occurrences. */
  function Entries(ws: seq<string>): (es: seq<Entry>)
    ensures |es| == |Distinct(ws)|
    ensures forall k :: 0 <= k < |es| ==> es[k] == Entry(Distinct(ws)[k], Occurrences(ws, Distinct(ws)[k]))
  {
    var d := Distinct(ws);
    seq(|d|, k requires 0 <= k < |d| => Entry(d[k], Occurrences(ws, d[k])))
  }

  // ---------------------------------------------------------------------
  // the stable sort by descending count

  /** Where an entry goes in a list sorted by descending count: after every
      entry with a count at least as high. */
  function InsertPos(sorted: seq<Entry>, e: Entry): (m: nat)
    ensures m <= |sorted|
    ensures forall k :: 0 <= k < m ==> sorted[k].count >= e.count
    ensures m < |sorted| ==> sorted[m].count < e.count
  {
    if sorted == [] || sorted[0].count < e.count then 0
    else 1 + InsertPos(sorted[1..], e)
  }

  function Insert(sorted: seq<Entry>, e: Entry): (r: seq<Entry>)
    ensures |r| == |sorted| + 1
  {
    var m := InsertPos(sorted, e);
    sorted[..m] + [e] + sorted[m..]
  }

  /** `entries.sort(([, a], [, b]) => b - a)`: the array sort is stable, so this
      insertion sort, which places each later entry after the earlier ones of
      equal count, gives the same order. */
  function SortByCount(es: seq<Entry>): (r: seq<Entry>)
    ensures |r| == |es|
  {
    if es == [] then [] else Insert(SortByCount(es[..|es| - 1]), es[|es| - 1])
  }

  /** Descending by count. */
  ghost predicate SortedDesc(r: seq<Entry>) {
    forall i, j :: 0 <= i < j < |r| ==> r[i].count >= r[j].count
  }

  /** `a` stands before `b` in `es`. */
  ghost predicate Before(es: seq<Entry>, a: Entry, b: Entry) {
    exists p, q :: 0 <= p < q < |es| && es[p] == a && es[q] == b
  }

  /** Where the entries of a list go when one entry is inserted. */
  lemma InsertShape(sorted: seq<Entry>, e: Entry)
    ensures var m := InsertPos(sorted, e); var r := Insert(sorted, e);
      r[m] == e &&
      (forall k :: 0 <= k < m ==> r[k] == sorted[k]) &&
      (forall k :: m < k < |r| ==> r[k] == sorted[k - 1])
  {
  }

  /** Inserting adds the entry and keeps the others. */
  lemma InsertPermutes(sorted: seq<Entry>, e: Entry)
    ensures multiset(Insert(sorted, e)) == multiset(sorted) + multiset{e}
  {
    var m := InsertPos(sorted, e);
    var a := sorted[..m];
    var b := sorted[m..];
    assert sorted == a + b;
    assert Insert(sorted, e) == a + [e] + b;
    assert multiset(a + [e] + b) == multiset(a) + multiset([e]) + multiset(b);
  }

  /** The sort only reorders: it keeps the multiset of entries. */
  lemma {:induction false} SortPermutes(es: seq<Entry>)
    ensures multiset(SortByCount(es)) == multiset(es)
  {
    if es != [] {
      var init := es[..|es| - 1];
      var x := es[|es| - 1];
      var s := SortByCount(init);
      SortPermutes(init);
      InsertPermutes(s, x);
      assert SortByCount(es) == Insert(s, x);
      LastSplit(es);
    }
  }

  /** The multiset of a list is that of all its entries but the last, plus the last. */
  lemma LastSplit(es: seq<Entry>)
    requires es != []
    ensures multiset(es) == multiset(es[..|es| - 1]) + multiset{es[|es| - 1]}
  {
    assert es == es[..|es| - 1] + [es[|es| - 1]];
  }

  /** The sort leaves the entries in descending order of count. */
  lemma {:induction false} SortSorted(es: seq<Entry>)
    ensures SortedDesc(SortByCount(es))
  {
    if es != [] {
      var init := es[..|es| - 1];
      var x := es[|es| - 1];
      SortSorted(init);
      var s := SortByCount(init);
      var m := InsertPos(s, x);
      var r := SortByCount(es);
      InsertShape(s, x);
      forall i, j | 0 <= i < j < |r| ensures r[i].count >= r[j].count {
        if j < m {
        } else if j == m {
        } else if i < m {
        } else if i == m {
          assert r[j] == s[j - 1];
          assert s[m].count >= s[j - 1].count;
        } else {
          assert r[i] == s[i - 1] && r[j] == s[j - 1];
        }
      }
    }
  }

  /** Entries of equal count in `r` stand in the order they have in `es`. */
  ghost predicate StableWrt(es: seq<Entry>, r: seq<Entry>) {
    forall i, j :: (0 <= i < j < |r| && r[i].count == r[j].count) ==> Before(es, r[i], r[j])
  }

  /** Inserting the entry that comes last in `es` keeps a stable order stable. */
  lemma InsertStable(init: seq<Entry>, x: Entry, s: seq<Entry>)
    requires SortedDesc(s) && StableWrt(init, s)
    requires forall k :: 0 <= k < |s| ==> s[k] in init
    ensures StableWrt(init + [x], Insert(s, x))
  {
    var r := Insert(s, x);
    forall i, j | 0 <= i < j < |r| && r[i].count == r[j].count ensures Before(init + [x], r[i], r[j]) {
      InsertStablePair(init, x, s, i, j);
    }
  }

  /** One pair of equal counts after the insertion. */
  lemma InsertStablePair(init: seq<Entry>, x: Entry, s: seq<Entry>, i: nat, j: nat)
    requires SortedDesc(s) && StableWrt(init, s)
    requires forall k :: 0 <= k < |s| ==> s[k] in init
    requires i < j <= |s| && Insert(s, x)[i].count == Insert(s, x)[j].count
    ensures Before(init + [x], Insert(s, x)[i], Insert(s, x)[j])
  {
    var m := InsertPos(s, x);
    var r := Insert(s, x);
    InsertAt(s, x, i);
    InsertAt(s, x, j);
    if j == m {
      BeforeLast(init, x, s[i]);
    } else if i == m {
      assert false;
    } else {
      var i' := if i < m then i else i - 1;
      var j' := if j < m then j else j - 1;
      StablePair(init, x, s, i', j');
    }
  }

  /** What stands at position `k` once `e` is inserted. */
  lemma InsertAt(sorted: seq<Entry>, e: Entry, k: nat)
    requires k <= |sorted|
    ensures var m := InsertPos(sorted, e);
      Insert(sorted, e)[k] == if k < m then sorted[k] else if k == m then e else sorted[k - 1]
  {
  }

  /** Every entry of `init` stands before the one appended to it. */
  lemma BeforeLast(init: seq<Entry>, x: Entry, a: Entry)
    requires a in init
    ensures Before(init + [x], a, x)
  {
    var p :| 0 <= p < |init| && init[p] == a;
    assert (init + [x])[p] == a && (init + [x])[|init|] == x;
  }

  lemma StablePair(init: seq<Entry>, x: Entry, s: seq<Entry>, i: nat, j: nat)
    requires StableWrt(init, s)
    requires i < j < |s| && s[i].count == s[j].count
    ensures Before(init + [x], s[i], s[j])
  {
    var p, q :| 0 <= p < q < |init| && init[p] == s[i] && init[q] == s[j];
    assert (init + [x])[p] == s[i] && (init + [x])[q] == s[j];
  }

  /** The sort is stable: entries of equal count keep their relative order. */
  lemma {:induction false} SortStable(es: seq<Entry>)
    ensures StableWrt(es, SortByCount(es))
  {
    if es != [] {
      var n := |es| - 1;
      var init := es[..n];
      SortStable(init);
      SortSorted(init);
      SortMembers(init);
      InsertStable(init, es[n], SortByCount(init));
      assert es == init + [es[n]];
    }
  }

  /** Every sorted entry comes from the input. */
  lemma SortMembers(es: seq<Entry>)
    ensures forall k :: 0 <= k < |SortByCount(es)| ==> SortByCount(es)[k] in es
  {
    var s := SortByCount(es);
    SortPermutes(es);
    forall k | 0 <= k < |s| ensures s[k] in es {
      assert s[k] in multiset(es);
    }
  }

  // ---------------------------------------------------------------------
  // the result

  /** The top entries' words, `.slice(0, 5).map(([word]) => word)`. */
  function TopWords(sorted: seq<Entry>): (r: seq<string>)
    ensures |r| == Min(TopCount, |sorted|)
    ensures forall k :: 0 <= k < |r| ==> r[k] == sorted[k].word
  {
    seq(Min(TopCount, |sorted|), k requires 0 <= k < Min(TopCount, |sorted|) => sorted[k].word)
  }

  /** The keywords of a list of counted tokens. */
  function TopKeywords(ws: seq<string>): seq<string> {
    TopWords(Ranked(ws))
  }

  /** The table's entries sorted by descending count. */
  function Ranked(ws: seq<string>): (r: seq<Entry>)
    ensures |r| == |Distinct(ws)|
  {
    SortByCount(Entries(ws))
  }

  /** Every ranked entry is a word of `ws` with its number of occurrences. */
  lemma RankedEntries(ws: seq<string>)
    ensures forall i :: 0 <= i < |Ranked(ws)| ==>
      Ranked(ws)[i].word in ws && Ranked(ws)[i].count == Occurrences(ws, Ranked(ws)[i].word)
  {
    var es := Entries(ws);
    var r := Ranked(ws);
    DistinctOrder(ws);
    SortPermutes(es);
    forall i | 0 <= i < |r| ensures r[i].word in ws && r[i].count == Occurrences(ws, r[i].word) {
      assert r[i] in multiset(es);
      var p :| 0 <= p < |es| && es[p] == r[i];
    }
  }

  /** Every word of `ws` is ranked. */
  lemma RankedCovers(ws: seq<string>, w: string)
    requires w in ws
    ensures exists t :: 0 <= t < |Ranked(ws)| && Ranked(ws)[t].word == w
  {
    var d := Distinct(ws);
    var es := Entries(ws);
    var r := Ranked(ws);
    DistinctOrder(ws);
    SortPermutes(es);
    var p :| 0 <= p < |d| && d[p] == w;
    assert es[p] in multiset(r);
    var t :| 0 <= t < |r| && r[t] == es[p];
  }

  /** No word is ranked twice. */
  lemma RankedDistinct(ws: seq<string>)
    ensures forall i, j :: 0 <= i < j < |Ranked(ws)| ==> Ranked(ws)[i].word != Ranked(ws)[j].word
  {
    var es := Entries(ws);
    var r := Ranked(ws);
    RankedEntries(ws);
    SortPermutes(es);
    DistinctEntries(ws);
    forall i, j | 0 <= i < j < |r| ensures r[i].word != r[j].word {
      if r[i].word == r[j].word {
        assert r[i] == r[j];
        assert r[i] in multiset(es);
        MultisetTwo(r, i, j);
        assert false;
      }
    }
  }

  /** The ranking is by non-increasing count, and equal counts are in order of
      first occurrence. */
  lemma RankedOrder(ws: seq<string>)
    ensures forall i, j :: 0 <= i < j < |Ranked(ws)| ==> Ranked(ws)[i].count >= Ranked(ws)[j].count
    ensures forall i, j :: (0 <= i < j < |Ranked(ws)| && Ranked(ws)[i].count == Ranked(ws)[j].count) ==>
      Ranked(ws)[i].word in ws && Ranked(ws)[j].word in ws &&
      FirstIndex(ws, Ranked(ws)[i].word) < FirstIndex(ws, Ranked(ws)[j].word)
  {
    var es := Entries(ws);
    var r := Ranked(ws);
    DistinctOrder(ws);
    RankedEntries(ws);
    SortSorted(es);
    SortStable(es);
    forall i, j | 0 <= i < j < |r| && r[i].count == r[j].count
      ensures r[i].word in ws && r[j].word in ws && FirstIndex(ws, r[i].word) < FirstIndex(ws, r[j].word)
    {
      var p, q :| 0 <= p < q < |es| && es[p] == r[i] && es[q] == r[j];
    }
  }

  /** What `extractKeywords` promises of the counted tokens `ws`: at most five
      distinct words of `ws` (as many as there are, up to five), by
      non-increasing count, equal counts in order of first occurrence, and no
      word left out that would come before the last one taken. */
  lemma TopKeywordsSpec(ws: seq<string>)
    ensures |TopKeywords(ws)| == Min(TopCount, |Distinct(ws)|)
    ensures forall i, j :: 0 <= i < j < |TopKeywords(ws)| ==> TopKeywords(ws)[i] != TopKeywords(ws)[j]
    ensures forall i :: 0 <= i < |TopKeywords(ws)| ==> TopKeywords(ws)[i] in ws
    ensures forall i, j :: 0 <= i < j < |TopKeywords(ws)| ==>
      Occurrences(ws, TopKeywords(ws)[i]) >= Occurrences(ws, TopKeywords(ws)[j])
    ensures forall i, j :: (0 <= i < j < |TopKeywords(ws)| &&
      Occurrences(ws, TopKeywords(ws)[i]) == Occurrences(ws, TopKeywords(ws)[j])) ==>
      FirstIndex(ws, TopKeywords(ws)[i]) < FirstIndex(ws, TopKeywords(ws)[j])
    ensures forall w :: w in ws && w !in TopKeywords(ws) ==>
      |TopKeywords(ws)| == TopCount &&
      (Occurrences(ws, w) < Occurrences(ws, TopKeywords(ws)[TopCount - 1]) ||
       (Occurrences(ws, w) == Occurrences(ws, TopKeywords(ws)[TopCount - 1]) &&
        FirstIndex(ws, TopKeywords(ws)[TopCount - 1]) < FirstIndex(ws, w)))
  {
    var r := Ranked(ws);
    var kws := TopKeywords(ws);
    assert forall k :: 0 <= k < |kws| ==> kws[k] == r[k].word;
    RankedEntries(ws);
    RankedDistinct(ws);
    RankedOrder(ws);
    forall w | w in ws && w !in kws
      ensures |kws| == TopCount &&
        (Occurrences(ws, w) < Occurrences(ws, kws[TopCount - 1]) ||
         (Occurrences(ws, w) == Occurrences(ws, kws[TopCount - 1]) &&
          FirstIndex(ws, kws[TopCount - 1]) < FirstIndex(ws, w)))
    {
      RankedCovers(ws, w);
      var t :| 0 <= t < |r| && r[t].word == w;
      assert t >= TopCount;
      assert r[TopCount - 1].count >= r[t].count;
    }
  }

  /** Every keyword is one of the counted words. */
  lemma TopKeywordsMembers(ws: seq<string>)
    ensures forall i :: 0 <= i < |TopKeywords(ws)| ==> TopKeywords(ws)[i] in ws
  {
    TopKeywordsSpec(ws);
  }

  /** Each entry of the table occurs in it once. */
  lemma DistinctEntries(ws: seq<string>)
    ensures forall e :: e in Entries(ws) ==> multiset(Entries(ws))[e] == 1
  {
    DistinctOrder(ws);
    var es := Entries(ws);
    forall e | e in es ensures multiset(es)[e] == 1 {
      var p :| 0 <= p < |es| && es[p] == e;
      DistinctOnce(es, p);
    }
  }

  lemma {:induction false} DistinctOnce(es: seq<Entry>, p: nat)
    requires p < |es|
    requires forall i, j :: 0 <= i < j < |es| ==> es[i].word != es[j].word
    ensures multiset(es)[es[p]] == 1
  {
    var n := |es| - 1;
    var init := es[..n];
    assert es == init + [es[n]];
    if p == n {
      assert es[n] !in init;
    } else {
      DistinctOnce(init, p);
      assert es[n] != es[p];
    }
  }

  /** An entry at two positions of a list occurs in it at least twice. */
  lemma MultisetTwo(r: seq<Entry>, i: nat, j: nat)
    requires i < j < |r| && r[i] == r[j]
    ensures multiset(r)[r[i]] >= 2
  {
    assert r == r[..i] + [r[i]] + r[i + 1..j] + [r[j]] + r[j + 1..];
  }

  /** One more token: how the key order and the counts grow. */
  lemma CountStep(ws: seq<string>, i: nat)
    requires i < |ws|
    ensures Distinct(ws[..i + 1]) == if ws[i] in Distinct(ws[..i]) then Distinct(ws[..i]) else Distinct(ws[..i]) + [ws[i]]
    ensures forall w :: Occurrences(ws[..i + 1], w) == Occurrences(ws[..i], w) + (if ws[i] == w then 1 else 0)
    ensures ws[i] !in Distinct(ws[..i]) ==> Occurrences(ws[..i], ws[i]) == 0
  {
    assert ws[..i + 1][..i] == ws[..i];
    DistinctOrder(ws[..i]);
    if ws[i] !in ws[..i] {
      OccurrencesAbsent(ws[..i], ws[i]);
    }
  }

  lemma {:induction false} OccurrencesAbsent(ws: seq<string>, w: string)
    requires w !in ws
    ensures Occurrences(ws, w) == 0
  {
    if ws != [] {
      assert w !in ws[..|ws| - 1];
      OccurrencesAbsent(ws[..|ws| - 1], w);
    }
  }

  /** The `wordCount` table after counting `ws`, one word after the other. */
  function CountTable(ws: seq<string>): map<string, nat> {
    if ws == [] then map[]
    else
      var table := CountTable(ws[..|ws| - 1]);
      var word := ws[|ws| - 1];
      table[word := (if word in table then table[word] else 0) + 1]
  }

  /** The table's keys are the words of `ws`, in order of first occurrence,
      and each counts the occurrences of its word. */
  lemma {:induction false} CountTableSpec(ws: seq<string>)
    ensures forall w :: w in CountTable(ws) <==> w in Distinct(ws)
    ensures forall w :: w in CountTable(ws) ==> CountTable(ws)[w] == Occurrences(ws, w)
  {
    if ws != [] {
      var n := |ws| - 1;
      CountTableSpec(ws[..n]);
      CountStep(ws, n);
      assert ws[..n + 1] == ws;
    }
  }

  /** The table, listed in key order, gives the entries of `ws`. */
  lemma TableEntries(ws: seq<string>)
    ensures |Distinct(ws)| == |Entries(ws)|
    ensures forall k :: 0 <= k < |Distinct(ws)| ==>
      Distinct(ws)[k] in CountTable(ws) && Entry(Distinct(ws)[k], CountTable(ws)[Distinct(ws)[k]]) == Entries(ws)[k]
  {
    CountTableSpec(ws);
  }

  /** The `forEach` that fills the `wordCount` table; `order` is the order in
      which its keys were first set, the order `Object.entries` lists them in. */
  method CountWords(words: seq<string>) returns (order: seq<string>, wordCount: map<string, nat>)
    ensures order == Distinct(words)
    ensures wordCount == CountTable(words)
  {
    wordCount := map[];
    order := [];
    var i := 0;
    while i < |words|
      invariant 0 <= i <= |words|
      invariant order == Distinct(words[..i])
      invariant wordCount == CountTable(words[..i])
    {
      var word := words[i];
      assert words[..i + 1][..i] == words[..i];
      var count := if word in wordCount then wordCount[word] else 0;
      if word !in wordCount {
        order := order + [word];
      }
      assert order == Distinct(words[..i + 1]) by {
        CountStep(words, i);
        CountTableSpec(words[..i]);
      }
      wordCount := wordCount[word := count + 1];
      assert wordCount == CountTable(words[..i + 1]);
      i := i + 1;
    }
    assert words[..i] == words;
  }

  /** `extractKeywords`: counts the kept tokens in a table whose keys keep the
      order of first occurrence, sorts its entries by descending count and
      returns the first five words. */
  method ExtractKeywords(text: string) returns (keywords: seq<string>)
    ensures keywords == TopKeywords(Candidates(text))
    ensures |keywords| <= TopCount
    ensures forall k :: 0 <= k < |keywords| ==> keywords[k] in Candidates(text)
  {
    var words := Candidates(text);
    var order, wordCount := CountWords(words);
    TableEntries(words);
    var entries := seq(|order|, k requires 0 <= k < |order| => Entry(order[k], wordCount[order[k]]));
    assert entries == Entries(words);
    var sorted := SortByCount(entries);
    keywords := TopWords(sorted);
    TopKeywordsMembers(words);
  }
}
