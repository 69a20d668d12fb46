/**
 * The two keyword highlighters. Each one runs, for every keyword in turn, a
 * regular-expression substitution that wraps the matched text in
 * `<mark>…</mark>`, and threads the text through the loop.
 *
 * One substitution pass is modelled as a scan of the text into pieces: a
 * character left as it is, or a matched stretch that gets wrapped. `Render`
 * gives the substituted text and `Erase` the text with the wrapping dropped.
 */
module Highlight {
  import opened Text
  import opened Wrappers

  datatype Piece = Plain(c: char) | Marked(s: string)

  const OpenTag: string := "<mark>"
  const CloseTag: string := "</mark>"

  /** The substituted text: every marked stretch wrapped in the tags. */
  function Render(ps: seq<Piece>): string
  {
    if ps == [] then []
    else (match ps[0] case Plain(c) => [c] case Marked(s) => OpenTag + s + CloseTag) + Render(ps[1..])
  }

  /** The text the pieces cover, without the tags. */
  function Erase(ps: seq<Piece>): string
  {
    if ps == [] then []
    else (match ps[0] case Plain(c) => [c] case Marked(s) => s) + Erase(ps[1..])
  }

  lemma RenderCons(p: Piece, rest: seq<Piece>)
    ensures Render([p] + rest) == Render([p]) + Render(rest)
  {
    assert ([p] + rest)[0] == p && ([p] + rest)[1..] == rest;
    assert [p][1..] == [];
  }

  /** `kw` occurs at position `i` of `t`, compared case-insensitively. */
  predicate OccursIgnoringCaseAt(t: string, kw: string, i: nat) {
    i + |kw| <= |t| && SameIgnoringCase(t[i..i + |kw|], kw)
  }

  /**
   * The pattern `re.escape(kw)` matches at `i`; with `wholeWord` it is the
   * pattern `(?<!\w)` + `re.escape(kw)` + `(?!\w)`, which also needs the
   * characters just before and just after the occurrence not to be word characters.
   */
  predicate MatchAt(t: string, kw: string, wholeWord: bool, i: nat) {
    OccursIgnoringCaseAt(t, kw, i)
    && (wholeWord ==> (i == 0 || !IsWord(t[i - 1])) && (i + |kw| == |t| || !IsWord(t[i + |kw|])))
  }

  /**
   * One `re.sub` pass from position `i`: the engine tries the pattern at each
   * position from left to right; a match is marked and the scan resumes after
   * it, otherwise one character is kept. An empty keyword gives an empty
   * pattern, which matches (and is marked) at every position where its
   * lookarounds hold, the end of the text included.
   */
  function Scan(t: string, kw: string, wholeWord: bool, i: nat): seq<Piece>
    requires i <= |t|
    decreases |t| - i
  {
    if kw == [] then
      (if MatchAt(t, kw, wholeWord, i) then [Marked([])] else [])
      + (if i == |t| then [] else [Plain(t[i])] + Scan(t, kw, wholeWord, i + 1))
    else if i == |t| then []
    else if MatchAt(t, kw, wholeWord, i) then [Marked(t[i..i + |kw|])] + Scan(t, kw, wholeWord, i + |kw|)
    else [Plain(t[i])] + Scan(t, kw, wholeWord, i + 1)
  }

  /** The text after one substitution pass for `kw`. */
  function MarkPass(t: string, kw: string, wholeWord: bool): string {
    Render(Scan(t, kw, wholeWord, 0))
  }

  /** A piece found at position `p` of `t` is right: a marked piece is a match there, a kept character is not. */
  predicate PieceAt(t: string, kw: string, wholeWord: bool, p: nat, piece: Piece) {
    match piece
    case Marked(s) => MatchAt(t, kw, wholeWord, p) && s == t[p..p + |kw|]
    case Plain(c) => p < |t| && c == t[p] && !MatchAt(t, kw, wholeWord, p)
  }

  /** Dropping the tags from one pass gives back the text from `i` on. */
  lemma {:induction false} ScanErase(t: string, kw: string, wholeWord: bool, i: nat)
    requires kw != [] && i <= |t|
    ensures Erase(Scan(t, kw, wholeWord, i)) == t[i..]
    decreases |t| - i
  {
    if i < |t| {
      var n := if MatchAt(t, kw, wholeWord, i) then |kw| else 1;
      ScanErase(t, kw, wholeWord, i + n);
      assert t[i..] == t[i..i + n] + t[i + n..];
    }
  }

  /** The text position at which piece `k` of a pass started at `i` stands. */
  function PieceStart(ps: seq<Piece>, i: nat, k: nat): nat
    requires k <= |ps|
  {
    i + |Erase(ps[..k])|
  }

  /** Every piece of `ps`, a pass started at `i`, is right at its own position. */
  predicate PiecesAt(t: string, kw: string, wholeWord: bool, i: nat, ps: seq<Piece>) {
    forall k :: 0 <= k < |ps| ==> PieceAt(t, kw, wholeWord, PieceStart(ps, i, k), ps[k])
  }

  /** Erasing a piece list that starts with a known piece. */
  lemma EraseCons(p: Piece, rest: seq<Piece>, k: nat)
    requires 0 < k <= |rest| + 1
    ensures |Erase(([p] + rest)[..k])| == |Erase([p])| + |Erase(rest[..k - 1])|
  {
    var ps := [p] + rest;
    assert ps[..k][0] == p;
    assert ps[..k][1..] == rest[..k - 1];
  }

  /**
   * One pass marks exactly the leftmost non-overlapping matches: every marked
   * piece is a match at its own position, keeping the matched text verbatim,
   * and no kept character starts a match.
   */
  lemma {:induction false} ScanPieces(t: string, kw: string, wholeWord: bool, i: nat)
    requires kw != [] && i <= |t|
    ensures PiecesAt(t, kw, wholeWord, i, Scan(t, kw, wholeWord, i))
    decreases |t| - i
  {
    if i < |t| {
      if MatchAt(t, kw, wholeWord, i) {
        var p0 := Marked(t[i..i + |kw|]);
        var rest := Scan(t, kw, wholeWord, i + |kw|);
        assert Scan(t, kw, wholeWord, i) == [p0] + rest;
        ScanPieces(t, kw, wholeWord, i + |kw|);
        EraseOne(p0);
        PiecesAtCons(t, kw, wholeWord, i, |kw|, p0, rest);
      } else {
        var p0 := Plain(t[i]);
        var rest := Scan(t, kw, wholeWord, i + 1);
        assert Scan(t, kw, wholeWord, i) == [p0] + rest;
        ScanPieces(t, kw, wholeWord, i + 1);
        EraseOne(p0);
        PiecesAtCons(t, kw, wholeWord, i, 1, p0, rest);
      }
    }
  }

  /** The text one piece covers. */
  lemma EraseOne(p: Piece)
    ensures Erase([p]) == match p case Plain(c) => [c] case Marked(s) => s
  {
    assert [p][1..] == [];
  }

  /** A right piece at `i`, followed by right pieces from where it ends, are right pieces from `i`. */
  lemma PiecesAtCons(t: string, kw: string, wholeWord: bool, i: nat, n: nat, p0: Piece, rest: seq<Piece>)
    requires PieceAt(t, kw, wholeWord, i, p0) && |Erase([p0])| == n
    requires PiecesAt(t, kw, wholeWord, i + n, rest)
    ensures PiecesAt(t, kw, wholeWord, i, [p0] + rest)
  {
    var ps := [p0] + rest;
    assert PieceStart(ps, i, 0) == i by {
      assert ps[..0] == [];
    }
    forall k | 0 < k < |ps|
      ensures PieceAt(t, kw, wholeWord, PieceStart(ps, i, k), ps[k])
    {
      EraseCons(p0, rest, k);
      assert PieceStart(ps, i, k) == PieceStart(rest, i + n, k - 1);
      assert ps[k] == rest[k - 1];
    }
  }

  /** A pass over a text in which the keyword never matches leaves it unchanged. */
  lemma {:induction false} MarkPassNoMatch(t: string, kw: string, wholeWord: bool, i: nat)
    requires kw != [] && i <= |t|
    requires forall p :: i <= p < |t| ==> !MatchAt(t, kw, wholeWord, p)
    ensures Render(Scan(t, kw, wholeWord, i)) == t[i..]
    decreases |t| - i
  {
    if i < |t| {
      var rest := Scan(t, kw, wholeWord, i + 1);
      assert Scan(t, kw, wholeWord, i) == [Plain(t[i])] + rest;
      MarkPassNoMatch(t, kw, wholeWord, i + 1);
      RenderCons(Plain(t[i]), rest);
      assert Render([Plain(t[i])]) == [t[i]];
      assert t[i..] == [t[i]] + t[i + 1..];
    }
  }

  // ---------------------------------------------------------------------------
  // `highlight_keywords` of the search tab: whole-word passes, then a second
  // pass that is reached only for exact-match searches and calls a name that
  // is not defined anywhere.
  // ---------------------------------------------------------------------------

  /** What the second pass raises: `keywords[i]` out of range, or the undefined `normalized_arabic_text`. */
  datatype HighlightError = IndexError | NameError

  /** The first pass: for each non-empty keyword in turn, a whole-word pass over the current text. */
  function WholeWordPasses(text: string, keywords: seq<string>): string
    decreases |keywords|
  {
    if keywords == [] then text
    else
      var t := WholeWordPasses(text, keywords[..|keywords| - 1]);
      var kw := keywords[|keywords| - 1];
      if kw == [] then t else MarkPass(t, kw, true)
  }

  /** The index of the first non-empty string, if any. */
  function FirstNonEmpty(ks: seq<string>): (r: Option<nat>)
    ensures r.Some? ==> r.value < |ks| && ks[r.value] != [] && forall j :: 0 <= j < r.value ==> ks[j] == []
    ensures r.None? ==> forall j :: 0 <= j < |ks| ==> ks[j] == []
  {
    if ks == [] then None
    else if ks[0] != [] then Some(0)
    else match FirstNonEmpty(ks[1..])
      case None => None
      case Some(j) => Some(j + 1)
  }

  /**
   * The whole highlighter: the first pass, then, for an exact-match search with
   * normalised keywords, the first non-empty normalised keyword reaches the
   * lookup of `keywords[i]` and the call of the undefined name.
   */
  function Highlighted(text: string, keywords: seq<string>, normalizedKeywords: seq<string>, exactMatch: bool)
    : Result<string, HighlightError>
  {
    var t := WholeWordPasses(text, keywords);
    if exactMatch && normalizedKeywords != [] then
      match FirstNonEmpty(normalizedKeywords)
      case None => Success(t)
      case Some(i) => if i < |keywords| then Failure(NameError) else Failure(IndexError)
    else Success(t)
  }

  method HighlightKeywords(text: string, keywords: seq<string>, normalizedKeywords: seq<string>, exactMatch: bool)
    returns (r: Result<string, HighlightError>)
    ensures r == Highlighted(text, keywords, normalizedKeywords, exactMatch)
  {
    var t := text;
    for k := 0 to |keywords|
      invariant t == WholeWordPasses(text, keywords[..k])
    {
      assert keywords[..k + 1][..k] == keywords[..k];
      var kw := keywords[k];
      if kw == [] {
        continue;
      }
      t := MarkPass(t, kw, true);
    }
    assert keywords[..|keywords|] == keywords;
    if exactMatch && normalizedKeywords != [] {
      for i := 0 to |normalizedKeywords|
        invariant forall j :: 0 <= j < i ==> normalizedKeywords[j] == []
      {
        var normKw := normalizedKeywords[i];
        if normKw == [] {
          continue;
        }
        if i >= |keywords| {
          return Failure(IndexError);
        }
        return Failure(NameError);
      }
    }
    return Success(t);
  }

  /** The highlighter fails exactly for an exact-match search with a non-empty normalised keyword. */
  lemma HighlightFailsIff(text: string, keywords: seq<string>, normalizedKeywords: seq<string>, exactMatch: bool)
    ensures Highlighted(text, keywords, normalizedKeywords, exactMatch).Failure?
        <==> exactMatch && exists j :: 0 <= j < |normalizedKeywords| && normalizedKeywords[j] != []
    ensures |normalizedKeywords| <= |keywords| && Highlighted(text, keywords, normalizedKeywords, exactMatch).Failure?
        ==> Highlighted(text, keywords, normalizedKeywords, exactMatch).error == NameError
  {
    if exactMatch && exists j :: 0 <= j < |normalizedKeywords| && normalizedKeywords[j] != [] {
      assert FirstNonEmpty(normalizedKeywords).Some?;
    }
  }

  /** Without exact matching only the whole-word passes run, and they cannot fail. */
  lemma FuzzyOnlyFirstPass(text: string, keywords: seq<string>, normalizedKeywords: seq<string>)
    ensures Highlighted(text, keywords, normalizedKeywords, false) == Success(WholeWordPasses(text, keywords))
  {
  }

  /**
   * Keywords that are empty or never match as whole words leave the text as it
   * was; in particular an empty keyword list does.
   */
  lemma {:induction false} WholeWordPassesNoMatch(text: string, keywords: seq<string>)
    requires forall k :: 0 <= k < |keywords| ==>
      keywords[k] == [] || forall p :: 0 <= p < |text| ==> !MatchAt(text, keywords[k], true, p)
    ensures WholeWordPasses(text, keywords) == text
    decreases |keywords|
  {
    if keywords != [] {
      var init := keywords[..|keywords| - 1];
      WholeWordPassesNoMatch(text, init);
      var kw := keywords[|keywords| - 1];
      if kw != [] {
        MarkPassNoMatch(text, kw, true, 0);
      }
    }
  }

  // ---------------------------------------------------------------------------
  // `highlight_keywords` of the main application: one pass per keyword, no
  // word boundaries and no check for empty keywords.
  // ---------------------------------------------------------------------------

  /** For each keyword in turn, a pass that marks every case-insensitive occurrence. */
  function AnywherePasses(text: string, keywords: seq<string>): string
    decreases |keywords|
  {
    if keywords == [] then text
    else MarkPass(AnywherePasses(text, keywords[..|keywords| - 1]), keywords[|keywords| - 1], false)
  }

  method HighlightKeywordsAnywhere(text: string, keywords: seq<string>) returns (r: string)
    ensures r == AnywherePasses(text, keywords)
  {
    r := text;
    for k := 0 to |keywords|
      invariant r == AnywherePasses(text, keywords[..k])
    {
      assert keywords[..k + 1][..k] == keywords[..k];
      r := MarkPass(r, keywords[k], false);
    }
    assert keywords[..|keywords|] == keywords;
  }

  /** Non-empty keywords that occur nowhere, in any case, leave the text as it was. */
  lemma {:induction false} AnywherePassesNoMatch(text: string, keywords: seq<string>)
    requires forall k :: 0 <= k < |keywords| ==>
      keywords[k] != [] && forall p :: 0 <= p < |text| ==> !OccursIgnoringCaseAt(text, keywords[k], p)
    ensures AnywherePasses(text, keywords) == text
    decreases |keywords|
  {
    if keywords != [] {
      AnywherePassesNoMatch(text, keywords[..|keywords| - 1]);
      MarkPassNoMatch(text, keywords[|keywords| - 1], false, 0);
    }
  }

  /** Occurrences inside a larger word are marked too, keeping their case. */
  lemma InsideWordsAnywhere()
    ensures MarkPass("تظلم", "ظلم", false) == "ت<mark>ظلم</mark>"
  {
    var t, kw := "تظلم", "ظلم";
    assert Lower(t[0..3][0]) != Lower(kw[0]);
    assert t[1..4] == kw;
    assert MatchAt(t, kw, false, 1);
    assert Scan(t, kw, false, 4) == [];
    assert Scan(t, kw, false, 1) == [Marked(kw)];
  }

  /** The whole-word pass leaves an occurrence inside a larger word as it is. */
  lemma InsideWordsWholeWord()
    ensures MarkPass("تظلم", "ظلم", true) == "تظلم"
  {
    var t, kw := "تظلم", "ظلم";
    assert IsWord('ت');
    assert t[0..3] != kw by {
      assert t[0] != kw[0];
    }
    MarkPassNoMatch(t, kw, true, 0);
  }

  /** The pieces of the pass for "b" over "ABC": the "B" is matched whatever its case. */
  lemma ScanExample()
    ensures Scan("ABC", "b", false, 0) == [Plain('A'), Marked("B"), Plain('C')]
  {
    var t, kw := "ABC", "b";
    var s3 := Scan(t, kw, false, 3);
    assert !MatchAt(t, kw, false, 2) by {
      assert Lower(t[2..3][0]) != Lower(kw[0]);
    }
    var s2 := Scan(t, kw, false, 2);
    assert s2 == [Plain('C')] + s3;
    assert MatchAt(t, kw, false, 1) by {
      assert Lower(t[1..2][0]) == Lower(kw[0]);
    }
    var s1 := Scan(t, kw, false, 1);
    assert s1 == [Marked("B")] + s2 by {
      assert t[1..2] == "B";
    }
    assert !MatchAt(t, kw, false, 0) by {
      assert Lower(t[0..1][0]) != Lower(kw[0]);
    }
    assert Scan(t, kw, false, 0) == [Plain('A')] + s1;
  }

  /** Worked example: "b" marks the "B" of "ABC", which keeps its upper case. */
  lemma MarkPassExample()
    ensures MarkPass("ABC", "b", false) == "A<mark>B</mark>C"
  {
    ScanExample();
    var s2: seq<Piece> := [Plain('C')];
    var s1 := [Marked("B")] + s2;
    RenderCons(Plain('C'), []);
    RenderCons(Marked("B"), s2);
    RenderCons(Plain('A'), s1);
    assert [Plain('A')] + s1 == [Plain('A'), Marked("B"), Plain('C')];
    assert Render([Marked("B")]) == OpenTag + "B" + CloseTag;
  }

  /**
   * A keyword matches any stretch of text that differs from it only in case,
   * and the pass marks that stretch in the text's own case.
   */
  lemma ScanIgnoresCase(t: string, kw: string, i: nat)
    requires kw != [] && i + |kw| <= |t| && SameIgnoringCase(t[i..i + |kw|], kw)
    ensures Scan(t, kw, false, i) == [Marked(t[i..i + |kw|])] + Scan(t, kw, false, i + |kw|)
  {
    assert MatchAt(t, kw, false, i);
  }

  /**
   * A text that is the keyword up to case comes out of the pass wrapped whole,
   * in its own case, as `\1` gives back the matched text.
   */
  lemma KeepsOriginalCase(t: string, kw: string)
    requires kw != [] && SameIgnoringCase(t, kw)
    ensures MarkPass(t, kw, false) == OpenTag + t + CloseTag
  {
    assert t[0..|kw|] == t;
    ScanIgnoresCase(t, kw, 0);
    assert Scan(t, kw, false, |t|) == [];
    RenderCons(Marked(t), []);
    assert [Marked(t)] + [] == [Marked(t)];
  }

  /** `s` with an empty marked stretch before each character and one at the end. */
  function MarkedEverywhere(s: string): string {
    if s == [] then OpenTag + CloseTag else (OpenTag + CloseTag) + ([s[0]] + MarkedEverywhere(s[1..]))
  }

  /** An empty keyword matches at every position when no whole word is asked for. */
  lemma EmptyMatchesEverywhere(t: string, i: nat)
    requires i <= |t|
    ensures MatchAt(t, [], false, i)
  {
    assert t[i..i] == [];
  }

  lemma EmptyScanStep(t: string, i: nat)
    requires i < |t|
    ensures Scan(t, [], false, i) == [Marked([])] + ([Plain(t[i])] + Scan(t, [], false, i + 1))
  {
    EmptyMatchesEverywhere(t, i);
  }

  lemma {:induction false} EmptyKeywordScan(t: string, i: nat)
    requires i <= |t|
    ensures Render(Scan(t, [], false, i)) == MarkedEverywhere(t[i..])
    decreases |t| - i
  {
    var m := Marked([]);
    if i == |t| {
      EmptyMatchesEverywhere(t, i);
      assert Scan(t, [], false, i) == [m];
      assert t[i..] == [];
    } else {
      var rest := Scan(t, [], false, i + 1);
      EmptyKeywordScan(t, i + 1);
      EmptyScanStep(t, i);
      RenderCons(m, [Plain(t[i])] + rest);
      RenderCons(Plain(t[i]), rest);
      assert Render([m]) == OpenTag + CloseTag by {
        assert OpenTag + [] == OpenTag;
      }
      assert Render([Plain(t[i])]) == [t[i]];
      assert t[i..][0] == t[i] && t[i..][1..] == t[i + 1..];
      assert MarkedEverywhere(t[i..]) == (OpenTag + CloseTag) + ([t[i]] + MarkedEverywhere(t[i + 1..]));
    }
  }

  /** An empty keyword (never filtered out by this highlighter) marks the empty string at every position, the end included. */
  lemma EmptyKeywordMarksEverywhere(t: string)
    ensures MarkPass(t, "", false) == MarkedEverywhere(t)
  {
    EmptyKeywordScan(t, 0);
    assert t[0..] == t;
  }
}
