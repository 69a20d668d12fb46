/**
 * The query of the search form and the test that decides whether an article
 * is a result: the keyword field is a comma-separated list, each keyword is
 * also normalised, and an article is a result when its number is the one asked
 * for or when one of the normalised keywords is found in its normalised text
 * (as a whole word for an exact-match search, anywhere otherwise).
 */
module Matcher {
  import opened Text
  import opened ArabicNormalizer

  /**
   * The keyword field: split at commas, each piece stripped, the pieces left
   * empty dropped; an empty field gives no keyword.
   */
  function ParseKeywords(input: string): (ks: seq<string>)
    ensures input == [] ==> ks == []
    ensures forall k :: 0 <= k < |ks| ==> ks[k] != [] && ',' !in ks[k]
    ensures forall k :: 0 <= k < |ks| ==> !IsSpace(ks[k][0]) && !IsSpace(ks[k][|ks[k]| - 1])
  {
    if input == [] then []
    else
      KeptAvoids(Split(input, ','), ',');
      Kept(Split(input, ','))
  }

  /** Keywords written into the field separated by commas are read back as they were written. */
  lemma ParseJoin(ks: seq<string>)
    requires forall k :: 0 <= k < |ks| ==> ks[k] != [] && ',' !in ks[k]
    requires forall k :: 0 <= k < |ks| ==> !IsSpace(ks[k][0]) && !IsSpace(ks[k][|ks[k]| - 1])
    ensures ParseKeywords(Join(ks, ',')) == ks
  {
    if ks != [] {
      SplitJoin(ks, ',');
      KeptUnchanged(ks);
      assert Join(ks, ',') != [] by {
        if |ks| == 1 {
          assert Join(ks, ',') == ks[0];
        } else {
          assert Join(ks, ',') == ks[0] + [','] + Join(ks[1..], ',');
        }
      }
    }
  }

  /** What the form hands to the search: the keywords, their normal forms, and the article number asked for. */
  datatype Query = Query(
    keywords: seq<string>,
    normalizedKeywords: seq<string>,
    byArticle: bool,
    articleNumber: string,
    exactMatch: bool)

  /**
   * The query built from the keyword field, the article-number field and the
   * exact-match box: the number is the stripped field, compared as it is
   * written (its digits are not converted).
   */
  function Prepare(keywordField: string, articleField: string, exactMatch: bool): (q: Query)
    ensures q.keywords == ParseKeywords(keywordField)
    ensures q.articleNumber == Strip(articleField) && q.exactMatch == exactMatch
    ensures |q.normalizedKeywords| == |q.keywords|
    ensures forall k :: 0 <= k < |q.keywords| ==> q.keywords[k] != []
    ensures forall k :: 0 <= k < |q.keywords| ==> q.normalizedKeywords[k] == NormalizeArabicText(q.keywords[k])
    ensures q.byArticle <==> q.articleNumber != []
  {
    var ks := ParseKeywords(keywordField);
    Query(ks, seq(|ks|, k requires 0 <= k < |ks| => NormalizeArabicText(ks[k])),
          Strip(articleField) != [], Strip(articleField), exactMatch)
  }

  /** `kw` occurs at position `i` of `t`. */
  predicate OccursAt(t: string, kw: string, i: int) {
    0 <= i <= |t| - |kw| && t[i..i + |kw|] == kw
  }

  /** `kw in t`: `kw` occurs somewhere in `t`. */
  predicate Contains(t: string, kw: string) {
    exists i :: 0 <= i <= |t| - |kw| && OccursAt(t, kw, i)
  }

  /** `kw` occurs at `i` of `t` with no word character just before it or just after it. */
  predicate WholeWordAt(t: string, kw: string, i: int) {
    && OccursAt(t, kw, i)
    && (i == 0 || !IsWord(t[i - 1]))
    && (i + |kw| == |t| || !IsWord(t[i + |kw|]))
  }

  /** `re.search(r'(?<!\w)' + re.escape(kw) + r'(?!\w)', t)` succeeds; the comparison is case-sensitive. */
  predicate ContainsWholeWord(t: string, kw: string) {
    exists i :: 0 <= i <= |t| - |kw| && WholeWordAt(t, kw, i)
  }

  /** A normalised keyword counts for a normalised text: it is not empty and is found, as a whole word when `exact`. */
  predicate KeywordHit(t: string, kw: string, exact: bool) {
    kw != [] && (if exact then ContainsWholeWord(t, kw) else Contains(t, kw))
  }

  /**
   * The decision for one article: its number is the one asked for, or one of
   * the normalised keywords counts for its normalised text.
   */
  predicate Qualifies(fullText: string, num: string, q: Query) {
    || (q.byArticle && num == q.articleNumber)
    || AnyHit(NormalizeArabicText(fullText), q.normalizedKeywords, q.exactMatch)
  }

  /** One of the normalised keywords counts for the normalised text `t`. */
  predicate AnyHit(t: string, kws: seq<string>, exact: bool) {
    exists j :: 0 <= j < |kws| && KeywordHit(t, kws[j], exact)
  }

  /**
   * The test the search runs on a gathered article: the number first, then the
   * normalised keywords in order, empty ones skipped, stopping at the first
   * that counts.
   */
  method MatchArticle(fullText: string, num: string, q: Query) returns (add: bool)
    ensures add == Qualifies(fullText, num, q)
  {
    add := false;
    var simpleFullText := NormalizeArabicText(fullText);
    if q.byArticle && num == q.articleNumber {
      add := true;
    } else if q.normalizedKeywords != [] {
      for idx := 0 to |q.normalizedKeywords|
        invariant !add
        invariant !AnyHit(simpleFullText, q.normalizedKeywords[..idx], q.exactMatch)
      {
        var kw := q.normalizedKeywords[idx];
        assert q.normalizedKeywords[..idx + 1] == q.normalizedKeywords[..idx] + [kw];
        if kw == [] {
          continue;
        }
        if q.exactMatch {
          if ContainsWholeWord(simpleFullText, kw) {
            add := true;
            break;
          }
        } else {
          if Contains(simpleFullText, kw) {
            add := true;
            break;
          }
        }
      }
      assert q.normalizedKeywords[..|q.normalizedKeywords|] == q.normalizedKeywords;
    }
  }

  /** A whole-word hit is a hit: an exact-match search finds no article that the other search misses. */
  lemma ExactImpliesFuzzy(t: string, kw: string)
    requires KeywordHit(t, kw, true)
    ensures KeywordHit(t, kw, false)
  {
    var i :| 0 <= i <= |t| - |kw| && WholeWordAt(t, kw, i);
    assert OccursAt(t, kw, i);
  }

  /**
   * A keyword field that holds no keyword (empty, blank, or only commas and
   * whitespace) and a blank number field give the same query as two empty fields.
   */
  lemma BlankFields(keywordField: string, articleField: string, exact: bool)
    requires ParseKeywords(keywordField) == [] && Strip(articleField) == []
    ensures Prepare(keywordField, articleField, exact) == Prepare("", "", exact)
  {
    assert Strip("") == [];
  }

  /** With no keyword and no article number, no article is a result. */
  lemma EmptyQueryMatchesNothing(fullText: string, num: string, keywordField: string, articleField: string, exact: bool)
    requires ParseKeywords(keywordField) == [] && Strip(articleField) == []
    ensures !Qualifies(fullText, num, Prepare(keywordField, articleField, exact))
  {
    var q := Prepare(keywordField, articleField, exact);
    assert q.normalizedKeywords == [];
  }

  /**
   * Without keywords, an article is a result exactly when the number field is
   * not blank and the article's number is that field, stripped, character for
   * character.
   */
  lemma NumberRule(fullText: string, num: string, keywordField: string, articleField: string, exact: bool)
    requires ParseKeywords(keywordField) == []
    ensures Qualifies(fullText, num, Prepare(keywordField, articleField, exact))
        <==> Strip(articleField) != [] && num == Strip(articleField)
  {
    var q := Prepare(keywordField, articleField, exact);
    assert q.normalizedKeywords == [];
  }

  /** The digits of the number field are not converted: ٥ asks for article ٥, never for article 5. */
  lemma DigitsAreNotConverted(fullText: string, exact: bool)
    ensures !Qualifies(fullText, "5", Prepare("", "٥", exact))
    ensures Qualifies(fullText, "٥", Prepare("", "٥", exact))
  {
    StripUnchanged("٥");
    NumberRule(fullText, "5", "", "٥", exact);
    NumberRule(fullText, "٥", "", "٥", exact);
  }

  /**
   * In a normalised text a whole-word occurrence is one that has a space or the
   * end of the text on each side: the only characters that are not word
   * characters are single spaces.
   */
  lemma WholeWordInCanonical(t: string, kw: string, i: int)
    requires Canonical(t)
    requires OccursAt(t, kw, i)
    ensures WholeWordAt(t, kw, i) <==> (i == 0 || t[i - 1] == ' ') && (i + |kw| == |t| || t[i + |kw|] == ' ')
  {
    if i > 0 {
      WordIsNotSpace(t[i - 1]);
    }
    if i + |kw| < |t| {
      WordIsNotSpace(t[i + |kw|]);
    }
  }

  /** An exact search for ظلم does not find the longer word تظلم, which the other search does find. */
  lemma ExactSkipsDerivedWords()
    ensures !KeywordHit("تظلم", "ظلم", true)
    ensures KeywordHit("تظلم", "ظلم", false)
  {
    var t, kw := "تظلم", "ظلم";
    assert OccursAt(t, kw, 1);
    forall i | 0 <= i <= |t| - |kw|
      ensures !WholeWordAt(t, kw, i)
    {
      if i == 0 {
        assert t[0..3] != kw by {
          assert t[0] != kw[0];
        }
      } else {
        assert IsWord(t[0]);
      }
    }
  }
}
