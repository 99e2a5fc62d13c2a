/** The summary pass of the analysis service: for a content of at least 100
    characters, its first non-blank sentence, cut to 150 characters. */
module SummaryGeneration {
  import opened TextOps

  /** Shorter contents get no summary. */
  const MinLength: nat := 100
  /** No summary is longer. */
  const MaxLength: nat := 150
  /** How much of a long sentence is kept before the ellipsis. */
  const CutLength: nat := 147

  /** A character of the class `[.!?]`. */
  predicate IsTerminator(c: char) {
    c == '.' || c == '!' || c == '?'
  }

  /** `segments.filter(s => s.trim().length > 0)`. */
  function NonBlank(segments: seq<string>): (r: seq<string>)
    ensures |r| <= |segments|
  {
    if segments == [] then []
    else (if Trim(segments[0]) != "" then [segments[0]] else []) + NonBlank(segments[1..])
  }

  /** A segment that trims to nothing. */
  predicate IsBlank(x: string) {
    Trim(x) == ""
  }

  /** The number of segments at the front that trim to nothing. */
  function LeadingBlank(segments: seq<string>): (n: nat)
    ensures n <= |segments|
    ensures forall k :: 0 <= k < n ==> IsBlank(segments[k])
    ensures n < |segments| ==> !IsBlank(segments[n])
  {
    LeadingRun(segments, IsBlank)
  }

  /** Exactly the segments that do not trim to nothing survive the filter;
      there is a survivor exactly when some segment is not blank, and the first
      survivor is the first segment that is not blank. */
  lemma NonBlankSpec(segments: seq<string>)
    ensures forall x :: x in NonBlank(segments) <==> x in segments && !IsBlank(x)
    ensures NonBlank(segments) == [] <==> LeadingBlank(segments) == |segments|
    ensures NonBlank(segments) != [] ==> NonBlank(segments)[0] == segments[LeadingBlank(segments)]
  {
    NonBlankMembers(segments);
    NonBlankFirst(segments);
  }

  lemma {:induction false} NonBlankMembers(segments: seq<string>)
    ensures forall x :: x in NonBlank(segments) <==> x in segments && !IsBlank(x)
  {
    if segments != [] {
      NonBlankMembers(segments[1..]);
      assert segments == [segments[0]] + segments[1..];
    }
  }

  lemma {:induction false} NonBlankFirst(segments: seq<string>)
    ensures NonBlank(segments) == [] <==> LeadingBlank(segments) == |segments|
    ensures NonBlank(segments) != [] ==> NonBlank(segments)[0] == segments[LeadingBlank(segments)]
  {
    if segments != [] && IsBlank(segments[0]) {
      var tail := segments[1..];
      NonBlankFirst(tail);
      if NonBlank(tail) != [] {
        assert segments[LeadingBlank(segments)] == tail[LeadingBlank(tail)];
      }
    }
  }

  /** The first 147 characters followed by "...". */
  function Truncate(s: string): (r: string)
    requires |s| >= CutLength
    ensures |r| == MaxLength && r[..CutLength] == s[..CutLength] && r[CutLength..] == "..."
  {
    s[..CutLength] + "..."
  }

  /** `generateSummary`. */
  function GenerateSummary(text: string): (r: Option<string>)
    ensures |text| < MinLength ==> r == None
    ensures r.Some? ==> |r.value| <= MaxLength
  {
    if |text| < MinLength then None
    else
      var sentences := NonBlank(Split(text, IsTerminator));
      if |sentences| > 0 then
        var firstSentence := Trim(sentences[0]);
        if |firstSentence| > MaxLength then Some(Truncate(firstSentence)) else Some(firstSentence)
      else if |text| > MaxLength then Some(Truncate(text))
      else None
  }

  // ---------------------------------------------------------------------
  // a reference definition of the first sentence, without splitting

  /** White space and terminators: what can stand between sentences. */
  predicate IsFiller(c: char) {
    IsSpace(c) || IsTerminator(c)
  }

  /** The text has a character that is neither white space nor a terminator. */
  predicate HasContent(s: string) {
    exists k :: 0 <= k < |s| && !IsFiller(s[k])
  }

  /** The text from its first character that is neither white space nor a terminator on. */
  function SkipFiller(s: string): (t: string)
    ensures |t| <= |s| && t == s[|s| - |t|..]
    ensures forall k :: 0 <= k < |s| - |t| ==> IsFiller(s[k])
    ensures t != "" ==> !IsFiller(t[0])
  {
    if s != [] && IsFiller(s[0]) then SkipFiller(s[1..]) else s
  }

  /** The first sentence: skip the leading filler, read up to the next
      terminator, drop trailing white space. */
  function FirstSentence(s: string): string {
    TrimEnd(TakeUntil(SkipFiller(s), IsTerminator))
  }

  lemma {:induction false} SkipFillerRun(s: string, n: nat)
    requires n <= |s|
    requires forall k :: 0 <= k < n ==> IsFiller(s[k])
    ensures SkipFiller(s) == SkipFiller(s[n..])
    ensures FirstSentence(s) == FirstSentence(s[n..])
  {
    if n > 0 {
      assert s[1..][n - 1..] == s[n..];
      SkipFillerRun(s[1..], n - 1);
    }
  }

  lemma ContentAfterRun(s: string, n: nat)
    requires n <= |s|
    requires forall k :: 0 <= k < n ==> IsFiller(s[k])
    ensures HasContent(s) <==> HasContent(s[n..])
  {
    if HasContent(s) {
      var k :| 0 <= k < |s| && !IsFiller(s[k]);
      assert k >= n && s[n..][k - n] == s[k];
    }
    if HasContent(s[n..]) {
      var k :| 0 <= k < |s[n..]| && !IsFiller(s[n..][k]);
      assert s[k + n] == s[n..][k];
    }
  }

  /** A leading white-space character changes neither blankness nor the trimmed text. */
  lemma TrimSkipsSpace(c: char, x: string)
    requires IsSpace(c)
    ensures Trim([c] + x) == Trim(x)
  {
    assert ([c] + x)[1..] == x;
  }

  /** The first non-blank piece of `s`, trimmed, is its first sentence, and
      there is one exactly when `s` has content. */
  ghost predicate FirstPieceIsSentence(s: string) {
    var ns := NonBlank(Split(s, IsTerminator));
    (ns != [] <==> HasContent(s)) && (ns != [] ==> Trim(ns[0]) == FirstSentence(s))
  }

  /** Splitting on terminators and taking the first non-blank piece, trimmed,
      is the same as reading the first sentence directly; there is such a piece
      exactly when the text has a character that is neither white space nor a
      terminator. */
  lemma {:induction false} FirstNonBlankPiece(s: string)
    ensures NonBlank(Split(s, IsTerminator)) != [] <==> HasContent(s)
    ensures NonBlank(Split(s, IsTerminator)) != [] ==>
      Trim(NonBlank(Split(s, IsTerminator))[0]) == FirstSentence(s)
    decreases |s|
  {
    if s == [] {
      assert Split(s, IsTerminator) == [""];
      assert NonBlank([""]) == [];
    } else if IsTerminator(s[0]) {
      FirstNonBlankPiece(s[LeadingRun(s, IsTerminator)..]);
      PieceAfterTerminators(s);
    } else if IsSpace(s[0]) {
      FirstNonBlankPiece(s[1..]);
      PieceAfterSpace(s);
    } else {
      PieceAtContent(s);
    }
    assert FirstPieceIsSentence(s);
  }

  /** A leading run of terminators adds only an empty piece, and changes
      neither the content nor the first sentence. */
  lemma PieceAfterTerminators(s: string)
    requires s != [] && IsTerminator(s[0])
    ensures var n := LeadingRun(s, IsTerminator);
      NonBlank(Split(s, IsTerminator)) == NonBlank(Split(s[n..], IsTerminator)) &&
      (HasContent(s) <==> HasContent(s[n..])) &&
      FirstSentence(s) == FirstSentence(s[n..])
  {
    var n := LeadingRun(s, IsTerminator);
    assert forall k :: 0 <= k < n ==> IsFiller(s[k]);
    SkipFillerRun(s, n);
    ContentAfterRun(s, n);
    NonBlankLeadingEmpty(Split(s[n..], IsTerminator));
  }

  lemma NonBlankLeadingEmpty(rest: seq<string>)
    ensures NonBlank([""] + rest) == NonBlank(rest)
  {
    assert ([""] + rest)[1..] == rest;
  }

  lemma PieceAfterSpace(s: string)
    requires s != [] && IsSpace(s[0]) && !IsTerminator(s[0])
    requires FirstPieceIsSentence(s[1..])
    ensures FirstPieceIsSentence(s)
  {
    var segs := Split(s, IsTerminator);
    var rest := Split(s[1..], IsTerminator);
    var head := [s[0]] + rest[0];
    assert segs == [head] + rest[1..];
    assert segs[1..] == rest[1..];
    assert rest == [rest[0]] + rest[1..];
    SkipFillerRun(s, 1);
    ContentAfterRun(s, 1);
    TrimSkipsSpace(s[0], rest[0]);
    assert NonBlank(segs) == (if Trim(rest[0]) != "" then [head] else []) + NonBlank(rest[1..]);
    assert NonBlank(rest) == (if Trim(rest[0]) != "" then [rest[0]] else []) + NonBlank(rest[1..]);
  }

  lemma PieceAtContent(s: string)
    requires s != [] && !IsFiller(s[0])
    ensures FirstPieceIsSentence(s)
  {
    var segs := Split(s, IsTerminator);
    var rest := Split(s[1..], IsTerminator);
    var head := [s[0]] + rest[0];
    assert segs == [head] + rest[1..];
    SplitFirst(s[1..], IsTerminator);
    assert Trim(head) != "";
    assert NonBlank(segs)[0] == head;
    assert TrimStart(head) == head;
    assert SkipFiller(s) == s;
    assert TakeUntil(s, IsTerminator) == head;
    assert HasContent(s);
  }

  /** What the first sentence is: a non-empty piece of the text that holds no
      terminator, starts and ends with a character other than white space, is
      preceded only by white space and terminators, and is followed by the end
      of the text, white space or a terminator. */
  lemma FirstSentenceShape(s: string)
    requires HasContent(s)
    ensures var f := FirstSentence(s);
      f != "" && !IsSpace(f[0]) && !IsSpace(f[|f| - 1]) &&
      (forall k :: 0 <= k < |f| ==> !IsTerminator(f[k])) &&
      exists i :: 0 <= i <= |s| - |f| && PieceAt(s, f, i) &&
        (forall k :: 0 <= k < i ==> IsFiller(s[k])) &&
        (i + |f| == |s| || IsFiller(s[i + |f|]))
  {
    SentenceStart(s);
    SentenceBody(SkipFiller(s));
    SentencePlace(s);
  }

  /** Where the first sentence stands: right after the leading filler. */
  lemma SentencePlace(s: string)
    requires SkipFiller(s) != ""
    ensures var f := FirstSentence(s); var i := |s| - |SkipFiller(s)|;
      0 <= i <= |s| - |f| && PieceAt(s, f, i) &&
      (forall k :: 0 <= k < i ==> IsFiller(s[k])) &&
      (i + |f| == |s| || IsFiller(s[i + |f|]))
  {
    var t := SkipFiller(s);
    SentenceBody(t);
    PieceOfSuffix(s, t, FirstSentence(s));
  }

  /** A text with content has a first sentence that starts with content. */
  lemma SentenceStart(s: string)
    requires HasContent(s)
    ensures SkipFiller(s) != "" && !IsFiller(SkipFiller(s)[0])
  {
    var k :| 0 <= k < |s| && !IsFiller(s[k]);
    assert k >= |s| - |SkipFiller(s)|;
  }

  /** Read from a character of content, the sentence is a non-empty prefix
      without terminators, with no white space at either end, followed by the
      end of the text or by filler. */
  lemma SentenceBody(t: string)
    requires t != "" && !IsFiller(t[0])
    ensures var f := TrimEnd(TakeUntil(t, IsTerminator));
      f != "" && !IsSpace(f[0]) && !IsSpace(f[|f| - 1]) &&
      (forall k :: 0 <= k < |f| ==> !IsTerminator(f[k])) &&
      |f| <= |t| && f == t[..|f|] && (|f| == |t| || IsFiller(t[|f|]))
  {
    var u := TakeUntil(t, IsTerminator);
    var f := TrimEnd(u);
    assert u != "" && u[0] == t[0];
    assert f != "" && f[0] == u[0];
    assert forall k :: 0 <= k < |f| ==> f[k] == u[k];
    if |f| < |u| {
      assert t[|f|] == u[|f|];
    }
  }

  /** `generateSummary`, restated with the reference definition: no summary for
      a short content; otherwise the first sentence, cut to 147 characters and
      an ellipsis when longer than 150; for a content with no sentence at all,
      the content itself cut the same way when longer than 150, and nothing
      otherwise. */
  lemma SummarySpec(text: string)
    ensures GenerateSummary(text) ==
      if |text| < MinLength then None
      else if HasContent(text) then
        (if |FirstSentence(text)| > MaxLength then Some(Truncate(FirstSentence(text))) else Some(FirstSentence(text)))
      else if |text| > MaxLength then Some(Truncate(text))
      else None
  {
    FirstNonBlankPiece(text);
  }

  /** A summary is either the first sentence or a cut of exactly 150
      characters ending in "..." that begins like the first sentence (or like
      the content, when it has no sentence). */
  lemma SummaryForms(text: string)
    requires GenerateSummary(text).Some?
    ensures var r := GenerateSummary(text).value;
      (HasContent(text) && r == FirstSentence(text) && |r| <= MaxLength) ||
      (HasContent(text) && |FirstSentence(text)| > MaxLength && |r| == MaxLength &&
        r[..CutLength] == FirstSentence(text)[..CutLength] && r[CutLength..] == "...") ||
      (!HasContent(text) && |text| > MaxLength && |r| == MaxLength && r[..CutLength] == text[..CutLength] && r[CutLength..] == "...")
  {
    SummarySpec(text);
  }

  /** A content of 100 to 150 characters with no terminator and some
      non-blank character is summarised by itself, trimmed. */
  lemma NoTerminatorSummary(text: string)
    requires MinLength <= |text| <= MaxLength
    requires forall k :: 0 <= k < |text| ==> !IsTerminator(text[k])
    requires HasContent(text)
    ensures GenerateSummary(text) == Some(Trim(text))
  {
    SplitWhole(text, IsTerminator);
    var k :| 0 <= k < |text| && !IsFiller(text[k]);
    assert !IsSpace(text[k]);
    assert Trim(text) != "";
    assert NonBlank([text]) == [text];
  }
}
