/** The JavaScript string built-ins that the analysis service relies on:
    `toLowerCase`, the regular-expression classes `\s` and `\w`,
    `split` on a run of separators, `includes`, `trim` and the
    `replace(/[^\w\s]/g, ' ')` clean-up.  Strings are sequences of characters. */
module TextOps {

  datatype Option<T> = None | Some(value: T)

  /** `\s` in a JavaScript regular expression (and the characters `trim` strips):
      the WhiteSpace and LineTerminator code points of ECMAScript. */
  predicate IsSpace(c: char) {
    var n := c as int;
    (9 <= n <= 13) || n == 0x20 || n == 0xA0 || n == 0x1680 ||
    (0x2000 <= n <= 0x200A) || n == 0x2028 || n == 0x2029 ||
    n == 0x202F || n == 0x205F || n == 0x3000 || n == 0xFEFF
  }

  /** `\w` without the `u` flag: ASCII letters, digits and the underscore. */
  predicate IsWordChar(c: char) {
    ('a' <= c <= 'z') || ('A' <= c <= 'Z') || ('0' <= c <= '9') || c == '_'
  }

  /** `toLowerCase` on one character, for ASCII, Latin-1 and the Turkish capitals
      Ğ and Ş; every other character is left as it is. */
  function LowerChar(c: char): (d: char)
    ensures IsSpace(d) == IsSpace(c)
    ensures IsWordChar(d) == IsWordChar(c)
    ensures IsWordChar(c) ==> ('a' <= d <= 'z') || ('0' <= d <= '9') || d == '_'
    ensures 'A' <= c <= 'Z' ==> d as int == c as int + 32
    ensures IsWordChar(c) && !('A' <= c <= 'Z') ==> d == c
  {
    var n := c as int;
    if 'A' <= c <= 'Z' then (n + 32) as char
    else if 0xC0 <= n <= 0xDE && n != 0xD7 then (n + 32) as char
    else if n == 0x11E || n == 0x15E then (n + 1) as char
    else c
  }

  /** `s.toLowerCase()`: character by character, length preserved. */
  function Lower(s: string): (t: string)
    ensures |t| == |s|
    ensures forall i :: 0 <= i < |s| ==> t[i] == LowerChar(s[i])
  {
    seq(|s|, i requires 0 <= i < |s| => LowerChar(s[i]))
  }

  /** `s.replace(/[^\w\s]/g, ' ')`: every character that is neither a word
      character nor white space becomes a space. */
  function ReplaceNonWord(s: string): (t: string)
    ensures |t| == |s|
    ensures forall i :: 0 <= i < |s| ==> IsWordChar(t[i]) || IsSpace(t[i])
    ensures forall i :: 0 <= i < |s| ==> (IsWordChar(t[i]) <==> IsWordChar(s[i]))
    ensures forall i :: 0 <= i < |s| && IsWordChar(t[i]) ==> t[i] == s[i]
  {
    seq(|s|, i requires 0 <= i < |s| => if IsWordChar(s[i]) || IsSpace(s[i]) then s[i] else ' ')
  }

  /** `s.includes(t)`: `t` occurs in `s` as a contiguous piece. */
  predicate Includes(s: string, t: string) {
    exists i :: 0 <= i <= |s| - |t| && PieceAt(s, t, i)
  }

  /** The fuzzy rule of the sentiment and category passes,
      `word.includes(w) || w.includes(word)`: the token contains the list word,
      or the list word contains the token. */
  predicate Matches(token: string, word: string) {
    Includes(token, word) || Includes(word, token)
  }

  /** `t` stands in `s` from position `i` on. */
  predicate PieceAt(s: string, t: string, i: int) {
    0 <= i && i + |t| <= |s| && s[i..i + |t|] == t
  }

  lemma IncludesEmpty(s: string)
    ensures Includes(s, "")
  {
    assert PieceAt(s, "", 0);
  }

  /** A piece of a suffix is a piece of the whole. */
  lemma IncludesSuffix(s: string, n: nat, t: string)
    requires n <= |s|
    requires Includes(s[n..], t)
    ensures Includes(s, t)
  {
    var i :| 0 <= i <= |s[n..]| - |t| && PieceAt(s[n..], t, i);
    assert s[n + i..n + i + |t|] == t;
    assert PieceAt(s, t, n + i);
  }

  /** A prefix is a piece. */
  lemma IncludesPrefix(s: string, t: string)
    requires |t| <= |s| && s[..|t|] == t
    ensures Includes(s, t)
  {
    assert PieceAt(s, t, 0);
  }

  // ---------------------------------------------------------------------
  // split(/X+/) on a run of separator characters

  /** The number of elements at the front of `s` that satisfy `sep`. */
  function LeadingRun<T>(s: seq<T>, sep: T -> bool): (n: nat)
    ensures n <= |s|
    ensures forall k :: 0 <= k < n ==> sep(s[k])
    ensures n < |s| ==> !sep(s[n])
  {
    if s == [] || !sep(s[0]) then 0 else 1 + LeadingRun(s[1..], sep)
  }

  /** The longest prefix of `s` without a separator character. */
  function TakeUntil(s: string, sep: char -> bool): (t: string)
    ensures |t| <= |s| && t == s[..|t|]
    ensures forall k :: 0 <= k < |t| ==> !sep(t[k])
    ensures |t| < |s| ==> sep(s[|t|])
  {
    if s == [] || sep(s[0]) then "" else [s[0]] + TakeUntil(s[1..], sep)
  }

  /** `s.split(/X+/)` where `sep` says which characters X matches: the pieces
      between maximal runs of separators, one more piece than there are runs.
      A leading or trailing run, and the empty string, give an empty piece. */
  function Split(s: string, sep: char -> bool): (r: seq<string>)
    ensures |r| >= 1
    decreases |s|
  {
    if s == [] then [""]
    else if sep(s[0]) then [""] + Split(s[LeadingRun(s, sep)..], sep)
    else
      var rest := Split(s[1..], sep);
      [[s[0]] + rest[0]] + rest[1..]
  }

  /** All characters of `s` that are not separators, in order. */
  function Keep(s: string, sep: char -> bool): (t: string)
    ensures |t| <= |s|
  {
    if s == [] then "" else (if sep(s[0]) then "" else [s[0]]) + Keep(s[1..], sep)
  }

  /** The pieces written one after the other. */
  function Concat(ts: seq<string>): string {
    if ts == [] then "" else ts[0] + Concat(ts[1..])
  }

  lemma KeepSeparators(s: string, n: nat, sep: char -> bool)
    requires n <= |s|
    requires forall k :: 0 <= k < n ==> sep(s[k])
    ensures Keep(s, sep) == Keep(s[n..], sep)
  {
    if n > 0 {
      assert s[1..][n - 1..] == s[n..];
      KeepSeparators(s[1..], n - 1, sep);
    }
  }

  /** The first piece of a split is the longest separator-free prefix. */
  lemma {:induction false} SplitFirst(s: string, sep: char -> bool)
    ensures Split(s, sep)[0] == TakeUntil(s, sep)
    decreases |s|
  {
    if s != [] && !sep(s[0]) {
      SplitFirst(s[1..], sep);
    }
  }

  /** No piece of a split holds a separator. */
  lemma {:induction false} SplitNoSeparator(s: string, sep: char -> bool)
    ensures forall i, k :: 0 <= i < |Split(s, sep)| && 0 <= k < |Split(s, sep)[i]| ==> !sep(Split(s, sep)[i][k])
    decreases |s|
  {
    var r := Split(s, sep);
    if s == [] {
    } else if sep(s[0]) {
      var rest := Split(s[LeadingRun(s, sep)..], sep);
      SplitNoSeparator(s[LeadingRun(s, sep)..], sep);
      assert r == [""] + rest;
      forall i, k | 1 <= i < |r| && 0 <= k < |r[i]| ensures !sep(r[i][k]) {
        assert r[i] == rest[i - 1];
      }
    } else {
      var rest := Split(s[1..], sep);
      SplitNoSeparator(s[1..], sep);
      assert r == [[s[0]] + rest[0]] + rest[1..];
      forall i, k | 0 <= i < |r| && 0 <= k < |r[i]| ensures !sep(r[i][k]) {
        if i > 0 { assert r[i] == rest[i]; }
        else if k > 0 { assert r[0][k] == rest[0][k - 1]; }
      }
    }
  }

  /** One step of `Split` at a separator. */
  lemma SplitAtSeparator(s: string, sep: char -> bool)
    requires s != [] && sep(s[0])
    ensures Split(s, sep) == [""] + Split(s[LeadingRun(s, sep)..], sep)
  {
  }

  /** One step of `Split` at a kept character. */
  lemma SplitAtKept(s: string, sep: char -> bool)
    requires s != [] && !sep(s[0])
    ensures var rest := Split(s[1..], sep); Split(s, sep) == [[s[0]] + rest[0]] + rest[1..]
  {
  }

  lemma ConcatEmptyHead(ps: seq<string>)
    ensures Concat([""] + ps) == Concat(ps)
  {
    assert ([""] + ps)[1..] == ps;
  }

  lemma ConcatCons(c: char, ps: seq<string>)
    requires |ps| >= 1
    ensures Concat([[c] + ps[0]] + ps[1..]) == [c] + Concat(ps)
  {
    var qs := [[c] + ps[0]] + ps[1..];
    assert qs[1..] == ps[1..];
  }

  /** The pieces of a split, written one after the other, are exactly the
      non-separator characters of `s`. */
  lemma {:induction false} SplitConcat(s: string, sep: char -> bool)
    ensures Concat(Split(s, sep)) == Keep(s, sep)
    decreases |s|
  {
    if s == [] {
    } else if sep(s[0]) {
      var n := LeadingRun(s, sep);
      SplitAtSeparator(s, sep);
      SplitConcat(s[n..], sep);
      ConcatEmptyHead(Split(s[n..], sep));
      KeepSeparators(s, n, sep);
    } else {
      SplitAtKept(s, sep);
      SplitConcat(s[1..], sep);
      ConcatCons(s[0], Split(s[1..], sep));
    }
  }

  /** Every piece of a split occurs in `s`. */
  lemma {:induction false} SplitIncluded(s: string, sep: char -> bool)
    ensures forall i :: 0 <= i < |Split(s, sep)| ==> Includes(s, Split(s, sep)[i])
    decreases |s|
  {
    var r := Split(s, sep);
    if s == [] {
      IncludesEmpty(s);
    } else if sep(s[0]) {
      var n := LeadingRun(s, sep);
      var rest := Split(s[n..], sep);
      SplitIncluded(s[n..], sep);
      assert r == [""] + rest;
      IncludesEmpty(s);
      forall i | 0 < i < |r| ensures Includes(s, r[i]) {
        assert r[i] == rest[i - 1];
        IncludesSuffix(s, n, rest[i - 1]);
      }
    } else {
      var rest := Split(s[1..], sep);
      SplitIncluded(s[1..], sep);
      SplitFirst(s[1..], sep);
      var head := [s[0]] + rest[0];
      assert r == [head] + rest[1..];
      assert s[..|head|] == head;
      IncludesPrefix(s, head);
      forall i | 1 <= i < |r| ensures Includes(s, r[i]) {
        assert r[i] == rest[i];
        IncludesSuffix(s, 1, rest[i]);
      }
    }
  }

  /** Only the first and the last piece of a split can be empty. */
  lemma {:induction false} SplitInnerNonEmpty(s: string, sep: char -> bool)
    ensures forall i :: 0 < i < |Split(s, sep)| - 1 ==> Split(s, sep)[i] != ""
    decreases |s|
  {
    var r := Split(s, sep);
    if s == [] {
    } else if sep(s[0]) {
      var n := LeadingRun(s, sep);
      var rest := Split(s[n..], sep);
      SplitInnerNonEmpty(s[n..], sep);
      assert r == [""] + rest;
      if |r| > 2 {
        assert n < |s|;
        SplitFirst(s[n..], sep);
        assert |TakeUntil(s[n..], sep)| > 0;
        forall i | 0 < i < |r| - 1 ensures r[i] != "" {
          assert r[i] == rest[i - 1];
        }
      }
    } else {
      var rest := Split(s[1..], sep);
      SplitInnerNonEmpty(s[1..], sep);
      assert r == [[s[0]] + rest[0]] + rest[1..];
      forall i | 0 < i < |r| - 1 ensures r[i] != "" {
        assert r[i] == rest[i];
      }
    }
  }

  /** The empty string, and a string that starts with a separator, split into a
      first piece that is empty. */
  lemma SplitLeadingEmpty(s: string, sep: char -> bool)
    requires s == [] || sep(s[0])
    ensures Split(s, sep)[0] == ""
  {
  }

  // ---------------------------------------------------------------------
  // trim

  function TrimStart(s: string): (t: string)
    ensures |t| <= |s| && t == s[|s| - |t|..]
    ensures t != "" ==> !IsSpace(t[0])
    ensures forall k :: 0 <= k < |s| - |t| ==> IsSpace(s[k])
  {
    if s != [] && IsSpace(s[0]) then
      var t := TrimStart(s[1..]);
      assert s[1..][|s| - 1 - |t|..] == s[|s| - |t|..];
      assert forall k :: 1 <= k < |s| ==> s[k] == s[1..][k - 1];
      t
    else s
  }

  function TrimEnd(s: string): (t: string)
    ensures |t| <= |s| && t == s[..|t|]
    ensures t != "" ==> !IsSpace(t[|t| - 1])
    ensures forall k :: |t| <= k < |s| ==> IsSpace(s[k])
  {
    if s != [] && IsSpace(s[|s| - 1]) then TrimEnd(s[..|s| - 1]) else s
  }

  /** `s.trim()`: white space removed at both ends; `TrimSpec` says that
      nothing else is removed. */
  function Trim(s: string): (t: string)
    ensures |t| <= |s|
    ensures t != "" ==> !IsSpace(t[0]) && !IsSpace(t[|t| - 1])
    ensures t == "" <==> forall k :: 0 <= k < |s| ==> IsSpace(s[k])
  {
    var u := TrimStart(s);
    var t := TrimEnd(u);
    TrimParts(s, u, t);
    t
  }

  /** `TrimStart` drops exactly the leading run of white space. */
  lemma {:induction false} TrimStartRun(s: string)
    ensures |s| - |TrimStart(s)| == LeadingRun(s, IsSpace)
  {
    if s != [] && IsSpace(s[0]) {
      TrimStartRun(s[1..]);
    }
  }

  /** `trim` removes white space and nothing else: what it keeps stands in `s`
      right after the leading run of white space, and only white space
      follows it. */
  lemma TrimSpec(s: string)
    ensures var i := LeadingRun(s, IsSpace);
      PieceAt(s, Trim(s), i) &&
      (forall k :: 0 <= k < i ==> IsSpace(s[k])) &&
      (forall k :: i + |Trim(s)| <= k < |s| ==> IsSpace(s[k]))
  {
    var u := TrimStart(s);
    TrimStartRun(s);
    TrimParts(s, u, TrimEnd(u));
  }

  /** The facts about `trim`, from those about its two halves. */
  lemma TrimParts(s: string, u: string, t: string)
    requires |u| <= |s| && u == s[|s| - |u|..]
    requires u != "" ==> !IsSpace(u[0])
    requires forall k :: 0 <= k < |s| - |u| ==> IsSpace(s[k])
    requires |t| <= |u| && t == u[..|t|]
    requires t != "" ==> !IsSpace(t[|t| - 1])
    requires forall k :: |t| <= k < |u| ==> IsSpace(u[k])
    ensures t != "" ==> !IsSpace(t[0])
    ensures t == "" <==> forall k :: 0 <= k < |s| ==> IsSpace(s[k])
    ensures PieceAt(s, t, |s| - |u|)
    ensures forall k :: |s| - |u| + |t| <= k < |s| ==> IsSpace(s[k])
  {
    InnerPiece(s, u, t);
    if t != "" {
      assert t[0] == u[0];
    }
  }

  /** A prefix `t` of a suffix `u` of `s`, followed in `u` by white space only,
      is followed in `s` by white space only. */
  lemma InnerPiece(s: string, u: string, t: string)
    requires |u| <= |s| && u == s[|s| - |u|..]
    requires |t| <= |u| && t == u[..|t|]
    requires forall k :: |t| <= k < |u| ==> IsSpace(u[k])
    ensures PieceAt(s, t, |s| - |u|)
    ensures forall k :: |s| - |u| + |t| <= k < |s| ==> IsSpace(s[k])
  {
    var i := |s| - |u|;
    PieceOfSuffix(s, u, t);
    forall k | i + |t| <= k < |s| ensures IsSpace(s[k]) {
      assert s[k] == u[k - i];
    }
  }

  /** `Trim` leaves a piece of `s`. */
  lemma TrimIncluded(s: string)
    ensures Includes(s, Trim(s))
  {
    TrimSpec(s);
    assert PieceAt(s, Trim(s), LeadingRun(s, IsSpace));
  }

  // ---------------------------------------------------------------------
  // the tokenisation shared by the sentiment and category passes

  /** `text.toLowerCase().split(/\s+/)`. */
  function LowerWords(text: string): (ws: seq<string>)
    ensures |ws| >= 1
  {
    Split(Lower(text), IsSpace)
  }

  /** A text that is empty or starts with white space yields the empty token. */
  lemma LowerWordsLeadingEmpty(text: string)
    requires text == [] || IsSpace(text[0])
    ensures LowerWords(text)[0] == ""
  {
    SplitLeadingEmpty(Lower(text), IsSpace);
  }

  /** A prefix of a suffix of `s` is a piece of `s`, followed by what follows
      it in the suffix. */
  lemma PieceOfSuffix(s: string, t: string, f: string)
    requires |t| <= |s| && t == s[|s| - |t|..]
    requires |f| <= |t| && f == t[..|f|]
    ensures PieceAt(s, f, |s| - |t|)
    ensures |f| < |t| ==> s[|s| - |t| + |f|] == t[|f|]
  {
    var i := |s| - |t|;
    assert s[i..i + |f|] == s[i..][..|f|];
  }

  /** A text without separators splits into itself. */
  lemma {:induction false} SplitWhole(s: string, sep: char -> bool)
    requires forall k :: 0 <= k < |s| ==> !sep(s[k])
    ensures Split(s, sep) == [s]
    decreases |s|
  {
    if s != [] {
      SplitWhole(s[1..], sep);
      assert [s[0]] + s[1..] == s;
    }
  }

  /** The separator runs of `s`, in order: the gaps between the pieces of `Split`. */
  function Gaps(s: string, sep: char -> bool): seq<string>
    decreases |s|
  {
    if s == [] then []
    else if sep(s[0]) then [s[..LeadingRun(s, sep)]] + Gaps(s[LeadingRun(s, sep)..], sep)
    else Gaps(s[1..], sep)
  }

  /** `ps[0] + gs[0] + ps[1] + ... + gs[n - 1] + ps[n]`. */
  function Interleave(ps: seq<string>, gs: seq<string>): string
    requires |ps| == |gs| + 1
    decreases |gs|
  {
    if gs == [] then ps[0] else ps[0] + gs[0] + Interleave(ps[1..], gs[1..])
  }

  lemma InterleaveCons(c: char, ps: seq<string>, gs: seq<string>)
    requires |ps| == |gs| + 1
    ensures Interleave([[c] + ps[0]] + ps[1..], gs) == [c] + Interleave(ps, gs)
  {
    var qs := [[c] + ps[0]] + ps[1..];
    assert qs[1..] == ps[1..];
  }

  lemma InterleaveGap(g: string, ps: seq<string>, gs: seq<string>)
    requires |ps| == |gs| + 1
    ensures Interleave([""] + ps, [g] + gs) == g + Interleave(ps, gs)
  {
    var qs, hs := [""] + ps, [g] + gs;
    assert qs[1..] == ps && hs[1..] == gs;
    assert qs[0] + hs[0] == g;
    assert Interleave(qs, hs) == qs[0] + hs[0] + Interleave(ps, gs);
  }

  /** Every gap is a non-empty run of separators. */
  lemma {:induction false} GapsAreRuns(s: string, sep: char -> bool)
    ensures forall j :: 0 <= j < |Gaps(s, sep)| ==>
      Gaps(s, sep)[j] != "" && forall k :: 0 <= k < |Gaps(s, sep)[j]| ==> sep(Gaps(s, sep)[j][k])
    decreases |s|
  {
    if s != [] {
      if sep(s[0]) {
        var n := LeadingRun(s, sep);
        var gaps := Gaps(s[n..], sep);
        var g := [s[..n]] + gaps;
        GapsAreRuns(s[n..], sep);
        forall j | 0 <= j < |g|
          ensures g[j] != "" && forall k :: 0 <= k < |g[j]| ==> sep(g[j][k])
        {
          if j > 0 { assert g[j] == gaps[j - 1]; }
        }
      } else {
        GapsAreRuns(s[1..], sep);
      }
    }
  }

  /** A split puts the text back together: its pieces, with one non-empty run
      of separators between each pair, are the text again.  With
      `SplitNoSeparator` and `SplitInnerNonEmpty` this fixes where every piece
      starts and ends. */
  lemma {:induction false} SplitRoundTrip(s: string, sep: char -> bool)
    ensures |Split(s, sep)| == |Gaps(s, sep)| + 1
    ensures forall j :: 0 <= j < |Gaps(s, sep)| ==>
      Gaps(s, sep)[j] != "" && forall k :: 0 <= k < |Gaps(s, sep)[j]| ==> sep(Gaps(s, sep)[j][k])
    ensures Interleave(Split(s, sep), Gaps(s, sep)) == s
    decreases |s|
  {
    GapsAreRuns(s, sep);
    if s == [] {
    } else if sep(s[0]) {
      var n := LeadingRun(s, sep);
      SplitAtSeparator(s, sep);
      SplitRoundTrip(s[n..], sep);
      InterleaveGap(s[..n], Split(s[n..], sep), Gaps(s[n..], sep));
      assert s[..n] + s[n..] == s;
    } else {
      SplitAtKept(s, sep);
      SplitRoundTrip(s[1..], sep);
      InterleaveCons(s[0], Split(s[1..], sep), Gaps(s[1..], sep));
      assert [s[0]] + s[1..] == s;
    }
  }
}
