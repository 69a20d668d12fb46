/**
 * `normalize_arabic_text`: the canonical form in which article texts and keywords
 * are compared. It is a fixed pipeline of six rewrites, each modelled as its own
 * function with what it guarantees:
 *   1. a run of three or more copies of one character (other than a newline)
 *      becomes a single copy;
 *   2. the diacritics U+064B–U+0652 are deleted;
 *   3. letter variants are folded: إ أ آ to ا, ى to ي, ة to ه, ؤ to و, ئ to ي;
 *   4. every character that is neither a word character nor whitespace is deleted;
 *   5. every run of whitespace becomes one space;
 *   6. leading and trailing whitespace is stripped.
 */
module ArabicNormalizer {
  import opened Text

  /** The Arabic short-vowel and related marks, U+064B–U+0652. */
  predicate IsDiacritic(c: char) {
    '\U{064B}' <= c <= '\U{0652}'
  }

  /** The letter variants that step 3 folds away: إ أ آ ى ة ؤ ئ. */
  predicate IsVariant(c: char) {
    c == 'إ' || c == 'أ' || c == 'آ' || c == 'ى' || c == 'ة' || c == 'ؤ' || c == 'ئ'
  }

  /** The number of copies of `s[0]` that `s` starts with. */
  function RunLength(s: string): (k: nat)
    requires s != []
    ensures 1 <= k <= |s|
    ensures forall j :: 0 <= j < k ==> s[j] == s[0]
    ensures k < |s| ==> s[k] != s[0]
  {
    if |s| >= 2 && s[1] == s[0] then 1 + RunLength(s[1..]) else 1
  }

  /** No character other than a newline appears three times in a row. */
  predicate NoLongRun(s: string) {
    forall i, j, k :: 0 <= i < |s| && 0 <= j < |s| && 0 <= k < |s| && j == i + 1 && k == i + 2 && s[k] != '\n' ==>
      s[i] != s[k] || s[j] != s[k]
  }

  /**
   * Step 1, `(.)\1{2,}` replaced by `\1`: the regex engine scans maximal runs from
   * left to right, so a maximal run of three or more copies of a character
   * becomes one copy and a shorter run stays. `.` does not match a newline, so
   * runs of newlines stay as they are.
   */
  function CollapseRuns(s: string): (r: string)
    ensures |r| <= |s|
    ensures NoLongRun(r)
    ensures s != [] ==> r != [] && r[0] == s[0]
    decreases |s|
  {
    if s == [] then []
    else
      var k := RunLength(s);
      var head := if k >= 3 && s[0] != '\n' then [s[0]] else s[..k];
      var tail := CollapseRuns(s[k..]);
      assert s[..k] + s[k..] == s;
      assert tail != [] ==> tail[0] != s[0];
      head + tail
  }

  /** Step 1 keeps exactly the characters that occur. */
  lemma {:induction false} CollapseRunsChars(s: string)
    ensures forall c :: c in CollapseRuns(s) <==> c in s
    decreases |s|
  {
    if s != [] {
      var k := RunLength(s);
      CollapseRunsChars(s[k..]);
      assert s == s[..k] + s[k..];
      assert forall c :: c in s[..k] <==> c == s[0];
    }
  }

  /** Step 2: the diacritics are deleted and every other character is kept. */
  function StripDiacritics(s: string): (r: string)
    ensures |r| <= |s|
    ensures forall i :: 0 <= i < |r| ==> !IsDiacritic(r[i])
    decreases |s|
  {
    if s == [] then []
    else if IsDiacritic(s[0]) then StripDiacritics(s[1..])
    else [s[0]] + StripDiacritics(s[1..])
  }

  /** Step 2 keeps exactly the characters that are not diacritics. */
  lemma {:induction false} StripDiacriticsChars(s: string)
    ensures forall c :: c in StripDiacritics(s) <==> c in s && !IsDiacritic(c)
    decreases |s|
  {
    if s != [] {
      StripDiacriticsChars(s[1..]);
      assert s == [s[0]] + s[1..];
    }
  }

  /** The fold of step 3 on one character. */
  function FoldLetter(c: char): (d: char)
    ensures !IsVariant(d)
    ensures IsDiacritic(d) <==> IsDiacritic(c)
    ensures IsWord(d) <==> IsWord(c)
    ensures !IsVariant(c) ==> d == c
  {
    if c == 'إ' || c == 'أ' || c == 'آ' then 'ا'
    else if c == 'ى' then 'ي'
    else if c == 'ة' then 'ه'
    else if c == 'ؤ' then 'و'
    else if c == 'ئ' then 'ي'
    else c
  }

  /**
   * Step 3. The five substitutions of the source produce only ا ي ه و, none of
   * which a later substitution rewrites, so together they fold each character
   * on its own.
   */
  function FoldVariants(s: string): (r: string)
    ensures |r| == |s|
    ensures forall i :: 0 <= i < |s| ==> r[i] == FoldLetter(s[i])
  {
    seq(|s|, i requires 0 <= i < |s| => FoldLetter(s[i]))
  }

  /** Step 4, `[^\w\s]` deleted: exactly the word and whitespace characters remain. */
  function KeepWordsAndSpaces(s: string): (r: string)
    ensures |r| <= |s|
    ensures forall i :: 0 <= i < |r| ==> IsWord(r[i]) || IsSpace(r[i])
    decreases |s|
  {
    if s == [] then []
    else if IsWord(s[0]) || IsSpace(s[0]) then [s[0]] + KeepWordsAndSpaces(s[1..])
    else KeepWordsAndSpaces(s[1..])
  }

  /** Step 4 keeps exactly the word and whitespace characters. */
  lemma {:induction false} KeepWordsAndSpacesChars(s: string)
    ensures forall c :: c in KeepWordsAndSpaces(s) <==> c in s && (IsWord(c) || IsSpace(c))
    decreases |s|
  {
    if s != [] {
      KeepWordsAndSpacesChars(s[1..]);
      assert s == [s[0]] + s[1..];
    }
  }

  /** No two spaces are adjacent. */
  predicate NoDoubleSpace(s: string) {
    forall i, j :: 0 <= i < |s| && 0 <= j < |s| && j == i + 1 ==> s[i] != ' ' || s[j] != ' '
  }

  /**
   * Step 5, `\s+` replaced by one space: the only whitespace left is single
   * spaces, and every other character survives.
   */
  function CollapseSpaces(s: string): (r: string)
    ensures |r| <= |s|
    ensures forall i :: 0 <= i < |r| ==> r[i] == ' ' || !IsSpace(r[i])
    ensures NoDoubleSpace(r)
    ensures s == [] <==> r == []
    ensures s != [] && IsSpace(s[0]) ==> r[0] == ' '
    ensures s != [] && !IsSpace(s[0]) ==> r[0] == s[0]
    decreases |s|
  {
    if s == [] then []
    else if IsSpace(s[0]) then
      var rest := s[LeadingSpaces(s)..];
      [' '] + CollapseSpaces(rest)
    else
      [s[0]] + CollapseSpaces(s[1..])
  }

  /** Step 5 keeps every character that is not whitespace, and adds nothing but spaces. */
  lemma {:induction false} CollapseSpacesChars(s: string)
    ensures forall c :: c in CollapseSpaces(s) && c != ' ' ==> c in s
    ensures forall c :: c in s && !IsSpace(c) ==> c in CollapseSpaces(s)
    decreases |s|
  {
    if s != [] {
      if IsSpace(s[0]) {
        var k := LeadingSpaces(s);
        CollapseSpacesChars(s[k..]);
        assert s == s[..k] + s[k..];
        LeadingAreSpaces(s);
        assert forall c :: c in s[..k] ==> IsSpace(c);
      } else {
        CollapseSpacesChars(s[1..]);
        assert s == [s[0]] + s[1..];
      }
    }
  }

  /** Stripping keeps every character that is not whitespace. */
  lemma StripKeepsNonSpace(s: string, c: char)
    requires c in s && !IsSpace(c)
    ensures c in Strip(s)
  {
    var r, k := Strip(s), LeadingSpaces(s);
    StripShape(s);
    var j :| 0 <= j < |s| && s[j] == c;
    assert k <= j < k + |r|;
    assert r[j - k] == c;
  }

  /** Stripping a string keeps it free of adjacent spaces. */
  lemma StripKeepsNoDoubleSpace(s: string)
    requires NoDoubleSpace(s)
    ensures NoDoubleSpace(Strip(s))
  {
    var r, k := Strip(s), LeadingSpaces(s);
    StripShape(s);
    forall i | 0 < i < |r| && r[i] == ' '
      ensures r[i - 1] != ' '
    {
      assert r[i] == s[k + i] && r[i - 1] == s[k + i - 1];
    }
  }

  /** What steps 1 to 3 leave: no diacritic, no variant, and the folded form of every word character. */
  lemma FoldedStage(s: string, s3: string)
    requires s3 == FoldVariants(StripDiacritics(CollapseRuns(s)))
    ensures forall c :: c in s3 ==> !IsDiacritic(c) && !IsVariant(c)
    ensures forall c :: c in s && IsWord(c) ==> FoldLetter(c) in s3
  {
    var s2 := StripDiacritics(CollapseRuns(s));
    CollapseRunsChars(s);
    StripDiacriticsChars(CollapseRuns(s));
    forall c | c in s3
      ensures !IsDiacritic(c) && !IsVariant(c)
    {
      var j :| 0 <= j < |s3| && s3[j] == c;
      assert s2[j] in s2;
    }
    forall c | c in s && IsWord(c)
      ensures FoldLetter(c) in s3
    {
      assert c in s2;
      var j :| 0 <= j < |s2| && s2[j] == c;
      assert s3[j] == FoldLetter(c);
    }
  }

  /** What steps 4 and 5 leave: spaces and word characters of their input, all of which survive. */
  lemma SpacedStage(s3: string, t: string)
    requires t == CollapseSpaces(KeepWordsAndSpaces(s3))
    ensures forall c :: c in t ==> c == ' ' || (IsWord(c) && c in s3)
    ensures forall c :: c in s3 && IsWord(c) ==> c in t
  {
    var s4 := KeepWordsAndSpaces(s3);
    KeepWordsAndSpacesChars(s3);
    CollapseSpacesChars(s4);
    forall c | c in t
      ensures c == ' ' || (IsWord(c) && c in s3)
    {
      if c != ' ' {
        var j :| 0 <= j < |t| && t[j] == c;
        assert c in s4 && !IsSpace(c);
      }
    }
    forall c | c in s3 && IsWord(c)
      ensures c in t
    {
      WordIsNotSpace(c);
      assert c in s4;
    }
  }

  /** Step 6 on the output of step 5 keeps its shape and removes the spaces at the ends. */
  lemma StripStage(s3: string, t: string)
    requires forall c :: c in s3 ==> !IsDiacritic(c) && !IsVariant(c)
    requires forall c :: c in t ==> c == ' ' || (IsWord(c) && c in s3)
    requires NoDoubleSpace(t)
    ensures forall i :: 0 <= i < |Strip(t)| ==> IsWord(Strip(t)[i]) || Strip(t)[i] == ' '
    ensures forall i :: 0 <= i < |Strip(t)| ==> !IsDiacritic(Strip(t)[i]) && !IsVariant(Strip(t)[i])
    ensures NoDoubleSpace(Strip(t))
    ensures forall c :: c in s3 && IsWord(c) && c in t ==> c in Strip(t)
  {
    var r := Strip(t);
    StripShape(t);
    StripKeepsNoDoubleSpace(t);
    forall i | 0 <= i < |r|
      ensures (IsWord(r[i]) || r[i] == ' ') && !IsDiacritic(r[i]) && !IsVariant(r[i])
    {
      assert r[i] in t;
    }
    forall c | c in s3 && IsWord(c) && c in t
      ensures c in r
    {
      WordIsNotSpace(c);
      StripKeepsNonSpace(t, c);
    }
  }

  /** The shape of a normalised text: word characters and single spaces, no space at the ends, no diacritic, no variant. */
  predicate Canonical(s: string) {
    && (forall i :: 0 <= i < |s| ==> (IsWord(s[i]) || s[i] == ' ') && !IsDiacritic(s[i]) && !IsVariant(s[i]))
    && NoDoubleSpace(s)
    && (s != [] ==> s[0] != ' ' && s[|s| - 1] != ' ')
  }

  /** Every word character of `s` appears, folded, in `r`. */
  predicate KeepsWords(s: string, r: string) {
    forall c :: c in s && IsWord(c) ==> FoldLetter(c) in r
  }

  /**
   * Step 6, and the whole pipeline: the result is made of word characters and
   * single spaces, has no space at either end, holds no diacritic and no letter
   * variant, and is never longer than its input.
   */
  function NormalizeArabicText(s: string): (r: string)
    ensures |r| <= |s|
    ensures s == [] ==> r == []
    ensures Canonical(r)
  {
    var s3 := FoldVariants(StripDiacritics(CollapseRuns(s)));
    var t := CollapseSpaces(KeepWordsAndSpaces(s3));
    FoldedStage(s, s3);
    SpacedStage(s3, t);
    StripStage(s3, t);
    Strip(t)
  }

  lemma NoLongRunSuffix(s: string, k: nat)
    requires k <= |s| && NoLongRun(s)
    ensures NoLongRun(s[k..])
  {
    var t := s[k..];
    forall i, j, l | 0 <= i < |t| && 0 <= j < |t| && 0 <= l < |t| && j == i + 1 && l == i + 2 && t[l] != '\n'
      ensures t[i] != t[l] || t[j] != t[l]
    {
      assert t[i] == s[k + i] && t[j] == s[k + j] && t[l] == s[k + l];
    }
  }

  /** Normalisation loses no word character: each one is found, folded, in the result. */
  lemma NormalizeKeepsWords(s: string)
    ensures KeepsWords(s, NormalizeArabicText(s))
  {
    var s3 := FoldVariants(StripDiacritics(CollapseRuns(s)));
    var t := CollapseSpaces(KeepWordsAndSpaces(s3));
    FoldedStage(s, s3);
    SpacedStage(s3, t);
    StripStage(s3, t);
  }

  lemma {:induction false} CollapseRunsUnchanged(s: string)
    requires NoLongRun(s)
    ensures CollapseRuns(s) == s
    decreases |s|
  {
    if s != [] {
      var k := RunLength(s);
      assert s[0] == '\n' || k <= 2 by {
        if k >= 3 {
          assert s[2] == s[0] && s[1] == s[0];
        }
      }
      NoLongRunSuffix(s, k);
      CollapseRunsUnchanged(s[k..]);
      assert CollapseRuns(s) == s[..k] + CollapseRuns(s[k..]);
      assert s[..k] + s[k..] == s;
    }
  }

  lemma {:induction false} StripDiacriticsUnchanged(s: string)
    requires forall i :: 0 <= i < |s| ==> !IsDiacritic(s[i])
    ensures StripDiacritics(s) == s
    decreases |s|
  {
    if s != [] {
      StripDiacriticsUnchanged(s[1..]);
      assert [s[0]] + s[1..] == s;
    }
  }

  lemma FoldVariantsUnchanged(s: string)
    requires forall i :: 0 <= i < |s| ==> !IsVariant(s[i])
    ensures FoldVariants(s) == s
  {
  }

  lemma {:induction false} KeepWordsAndSpacesUnchanged(s: string)
    requires forall i :: 0 <= i < |s| ==> IsWord(s[i]) || IsSpace(s[i])
    ensures KeepWordsAndSpaces(s) == s
    decreases |s|
  {
    if s != [] {
      KeepWordsAndSpacesUnchanged(s[1..]);
      assert [s[0]] + s[1..] == s;
    }
  }

  lemma {:induction false} CollapseSpacesUnchanged(s: string)
    requires forall i :: 0 <= i < |s| ==> IsWord(s[i]) || s[i] == ' '
    requires NoDoubleSpace(s)
    ensures CollapseSpaces(s) == s
    decreases |s|
  {
    if s != [] {
      WordIsNotSpace(s[0]);
      if |s| > 1 {
        WordIsNotSpace(s[1]);
      }
      if s[0] == ' ' {
        assert LeadingSpaces(s) == 1;
      }
      CollapseSpacesUnchanged(s[1..]);
      assert [s[0]] + s[1..] == s;
    }
  }

  /** A canonical text without long runs is its own normal form. */
  lemma NormalizeUnchanged(s: string)
    requires Canonical(s) && NoLongRun(s)
    ensures NormalizeArabicText(s) == s
  {
    CollapseRunsUnchanged(s);
    StripDiacriticsUnchanged(s);
    FoldVariantsUnchanged(s);
    forall i | 0 <= i < |s|
      ensures IsWord(s[i]) || IsSpace(s[i])
    {
    }
    KeepWordsAndSpacesUnchanged(s);
    CollapseSpacesUnchanged(s);
    StripUnchanged(s);
  }

  /**
   * Normalising twice gives the same text as normalising once, unless folding
   * created a run of three letters that the second pass collapses.
   */
  lemma NormalizeIdempotentWithoutLongRuns(s: string)
    requires NoLongRun(NormalizeArabicText(s))
    ensures NormalizeArabicText(NormalizeArabicText(s)) == NormalizeArabicText(s)
  {
    NormalizeUnchanged(NormalizeArabicText(s));
  }

  /** Every character of the string is a bare alef. */
  predicate AllAlef(s: string) {
    forall i :: 0 <= i < |s| ==> s[i] == 'ا'
  }

  lemma AlefCanonical(s: string)
    requires AllAlef(s)
    ensures Canonical(s)
  {
  }

  lemma CollapseRunsAlefHamza()
    ensures CollapseRuns("اأا") == "اأا"
  {
    var s := "اأا";
    assert RunLength(s) == 1;
    assert RunLength(s[1..]) == 1;
    assert RunLength(s[2..]) == 1;
    assert CollapseRuns(s[3..]) == [];
    assert CollapseRuns(s[2..]) == s[2..];
    assert CollapseRuns(s[1..]) == s[1..];
  }

  lemma CollapseRunsThreeAlefs()
    ensures CollapseRuns("ااا") == "ا"
  {
    var s := "ااا";
    assert RunLength(s[2..]) == 1;
    assert RunLength(s[1..]) == 2;
    assert RunLength(s) == 3;
    assert CollapseRuns(s[3..]) == [];
  }

  lemma FoldAlefHamza()
    ensures StripDiacritics("اأا") == "اأا"
    ensures FoldVariants("اأا") == "ااا"
  {
    StripDiacriticsUnchanged("اأا");
  }

  lemma NormalizeAlefHamza()
    ensures NormalizeArabicText("اأا") == "ااا"
  {
    CollapseRunsAlefHamza();
    FoldAlefHamza();
    var a := "ااا";
    AlefCanonical(a);
    KeepWordsAndSpacesUnchanged(a);
    CollapseSpacesUnchanged(a);
    StripUnchanged(a);
  }

  lemma NormalizeThreeAlefs()
    ensures NormalizeArabicText("ااا") == "ا"
  {
    CollapseRunsThreeAlefs();
    var a := "ا";
    AlefCanonical(a);
    StripDiacriticsUnchanged(a);
    FoldVariantsUnchanged(a);
    KeepWordsAndSpacesUnchanged(a);
    CollapseSpacesUnchanged(a);
    StripUnchanged(a);
  }

  /**
   * Normalisation is not idempotent: in `اأا` no character repeats, so step 1
   * keeps it, and step 3 then folds it to three alefs, which a second
   * normalisation collapses to one.
   */
  lemma NotIdempotent()
    ensures NormalizeArabicText(NormalizeArabicText("اأا")) != NormalizeArabicText("اأا")
  {
    NormalizeAlefHamza();
    NormalizeThreeAlefs();
  }
}
