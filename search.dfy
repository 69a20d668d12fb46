/**
 * The search over the selected law documents. Each document is read paragraph
 * by paragraph; whenever an article is complete (at the next marker or at the
 * end of the document) it is matched against the query, and if it qualifies
 * it is added to the results with its text highlighted. The highlighter can
 * raise an error, which ends the whole search with no results shown.
 */
module Search {
  import opened Text
  import opened Wrappers
  import opened Segmenter
  import opened Matcher
  import opened Highlight

  /** One search result: the law, the article number, the highlighted text and the plain text. */
  datatype SearchResult = SearchResult(law: string, num: string, text: string, plain: string)

  /** A law document: its file name and the text of its paragraphs, in order. */
  datatype LawDocument = LawDocument(file: string, paragraphs: seq<string>)

  const Extension: string := ".docx"

  /** What happens to one article: nothing, a result, or the highlighter's error. */
  type Outcome = Result<Option<SearchResult>, HighlightError>

  /** What a search gives: its results in order, or the error that ended it. */
  type Results = Result<seq<SearchResult>, HighlightError>

  /** `file.replace(".docx", "")`: every occurrence, scanned from left to right, is removed. */
  function LawName(file: string): (name: string)
    ensures |name| <= |file|
    decreases |file|
  {
    if |file| >= |Extension| && file[..|Extension|] == Extension then LawName(file[|Extension|..])
    else if file == [] then []
    else [file[0]] + LawName(file[1..])
  }

  /** The law of a file named after it: a name without a dot loses exactly its extension. */
  lemma {:induction false} LawNameOfFile(name: string)
    requires '.' !in name
    ensures LawName(name + Extension) == name
    decreases |name|
  {
    if name == [] {
      assert name + Extension == Extension;
      assert LawName(Extension[|Extension|..]) == [];
    } else {
      var f := name + Extension;
      assert f[0] == name[0] && name[0] != '.';
      assert f[..|Extension|] != Extension by {
        assert Extension[0] == '.';
      }
      assert f[1..] == name[1..] + Extension;
      LawNameOfFile(name[1..]);
      assert [name[0]] + name[1..] == name;
    }
  }

  /**
   * What happens to one complete article: nothing when it does not qualify;
   * otherwise a result whose text is highlighted when there are keywords and
   * plain otherwise, or the highlighter's error.
   */
  function ArticleOutcome(a: Article, q: Query): Outcome {
    var fullText := ArticleText(a);
    if !Qualifies(fullText, a.num, q) then Success(None)
    else if q.keywords == [] then Success(Some(SearchResult(a.law, a.num, fullText, fullText)))
    else match Highlighted(fullText, q.keywords, q.normalizedKeywords, q.exactMatch)
      case Failure(e) => Failure(e)
      case Success(h) => Success(Some(SearchResult(a.law, a.num, h, fullText)))
  }

  /** Adding what happened to one more article to the results so far; the first error ends the search. */
  function Step(acc: Results, o: Outcome)
    : Results
  {
    match acc
    case Failure(e) => Failure(e)
    case Success(rs) =>
      match o
      case Failure(e) => Failure(e)
      case Success(None) => Success(rs)
      case Success(Some(r)) => Success(rs + [r])
  }

  /** The results gathered from a sequence of outcomes, in order. */
  function Gather(os: seq<Outcome>): Results
    decreases |os|
  {
    if os == [] then Success([]) else Step(Gather(os[..|os| - 1]), os[|os| - 1])
  }

  /** `f` applied to each element of `xs`, in order. */
  function Map<A, B>(f: A -> B, xs: seq<A>): (ys: seq<B>)
    ensures |ys| == |xs|
    ensures forall k :: 0 <= k < |xs| ==> ys[k] == f(xs[k])
  {
    seq(|xs|, k requires 0 <= k < |xs| => f(xs[k]))
  }

  lemma MapAppend<A, B>(f: A -> B, xs: seq<A>, ys: seq<A>)
    ensures Map(f, xs + ys) == Map(f, xs) + Map(f, ys)
  {
  }

  /** What happens to each article, in order. */
  function Outcomes(arts: seq<Article>, q: Query): (os: seq<Outcome>)
    ensures |os| == |arts|
  {
    Map((a: Article) => ArticleOutcome(a, q), arts)
  }

  /** The results of a sequence of articles taken in order. */
  function Collect(arts: seq<Article>, q: Query): Results {
    Gather(Outcomes(arts, q))
  }

  /** Joining the results of two stretches of articles. */
  function Then(r1: Results, r2: Results)
    : Results
  {
    match r1
    case Failure(e) => Failure(e)
    case Success(rs) => match r2 case Failure(e) => Failure(e) case Success(ss) => Success(rs + ss)
  }

  lemma {:induction false} GatherAppend(xs: seq<Outcome>, ys: seq<Outcome>)
    ensures Gather(xs + ys) == Then(Gather(xs), Gather(ys))
    decreases |ys|
  {
    if ys == [] {
      assert xs + ys == xs;
      if Gather(xs).Success? {
        assert Gather(xs).value + [] == Gather(xs).value;
      }
    } else {
      var n := |ys|;
      GatherAppend(xs, ys[..n - 1]);
      assert (xs + ys)[..|xs + ys| - 1] == xs + ys[..n - 1];
      assert (xs + ys)[|xs + ys| - 1] == ys[n - 1];
      if Gather(xs).Success? && Gather(ys[..n - 1]).Success? && ys[n - 1].Success? && ys[n - 1].value.Some? {
        assert Gather(xs).value + Gather(ys[..n - 1]).value + [ys[n - 1].value.value]
            == Gather(xs).value + (Gather(ys[..n - 1]).value + [ys[n - 1].value.value]);
      }
    }
  }

  /** The results carried by the outcomes that produced one, in order. */
  function Produced(os: seq<Outcome>): (rs: seq<SearchResult>)
    ensures |rs| <= |os|
    decreases |os|
  {
    if os == [] then []
    else
      var o := os[|os| - 1];
      Produced(os[..|os| - 1]) + (if o.Success? && o.value.Some? then [o.value.value] else [])
  }

  /**
   * Gathering succeeds exactly when every outcome is a success, and then gives
   * the produced results in order; a failure is the error of one of the outcomes.
   */
  lemma {:induction false} GatherSucceeds(os: seq<Outcome>)
    ensures Gather(os).Success? <==> forall k :: 0 <= k < |os| ==> os[k].Success?
    ensures Gather(os).Success? ==> Gather(os).value == Produced(os)
    ensures Gather(os).Failure? ==> exists k :: 0 <= k < |os| && os[k] == Failure(Gather(os).error)
    decreases |os|
  {
    if os != [] {
      var n := |os|;
      var init := os[..n - 1];
      GatherSucceeds(init);
      forall k | 0 <= k < n - 1
        ensures init[k] == os[k]
      {
      }
      if Gather(init).Failure? {
        var k :| 0 <= k < n - 1 && init[k] == Failure(Gather(init).error);
        assert os[k] == Failure(Gather(os).error);
      }
    }
  }

  lemma OutcomesAppend(xs: seq<Article>, ys: seq<Article>, q: Query)
    ensures Outcomes(xs + ys, q) == Outcomes(xs, q) + Outcomes(ys, q)
  {
    MapAppend((a: Article) => ArticleOutcome(a, q), xs, ys);
  }

  /** Collecting over two stretches of articles is collecting over each and joining. */
  lemma CollectAppend(xs: seq<Article>, ys: seq<Article>, q: Query)
    ensures Collect(xs + ys, q) == Then(Collect(xs, q), Collect(ys, q))
  {
    OutcomesAppend(xs, ys, q);
    GatherAppend(Outcomes(xs, q), Outcomes(ys, q));
  }

  /** The articles of a document and what the search does with them, one article at a time. */
  method EvaluateArticle(law: string, num: string, paragraphs: seq<string>, q: Query)
    returns (r: Outcome)
    ensures r == ArticleOutcome(Article(law, num, paragraphs), q)
  {
    var fullText := Join(paragraphs, '\n');
    var addResult := MatchArticle(fullText, num, q);
    if !addResult {
      return Success(None);
    }
    var highlighted := fullText;
    if q.keywords != [] {
      var h := HighlightKeywords(fullText, q.keywords, q.normalizedKeywords, q.exactMatch);
      if h.Failure? {
        return Failure(h.error);
      }
      highlighted := h.value;
    }
    return Success(Some(SearchResult(law, num, highlighted, fullText)));
  }

  /** Adding one complete article to results gathered so far. */
  lemma CollectStep(emitted: seq<Article>, a: Article, q: Query)
    ensures Collect(emitted + [a], q) == Step(Collect(emitted, q), ArticleOutcome(a, q))
  {
    OutcomesAppend(emitted, [a], q);
    var os := Outcomes(emitted + [a], q);
    assert os[..|os| - 1] == Outcomes(emitted, q);
  }

  /** Once the search has failed, later articles do not change the outcome. */
  lemma CollectFailureStays(xs: seq<Article>, ys: seq<Article>, q: Query)
    requires Collect(xs, q).Failure?
    ensures Collect(xs + ys, q) == Collect(xs, q)
  {
    CollectAppend(xs, ys, q);
  }

  /**
   * Flushing a complete article: it is evaluated and its result, if any, is
   * appended to the results gathered so far; its error ends the search.
   */
  method AddArticle(ghost emitted: seq<Article>, results: seq<SearchResult>, a: Article, q: Query) returns (r: Results)
    requires Collect(emitted, q) == Success(results)
    ensures r == Collect(emitted + [a], q)
  {
    var outcome := EvaluateArticle(a.law, a.num, a.paragraphs, q);
    CollectStep(emitted, a, q);
    if outcome.Failure? {
      return Failure(outcome.error);
    }
    if outcome.value.Some? {
      return Success(results + [outcome.value.value]);
    }
    return Success(results);
  }

  /** Once the articles emitted while reading the first `i` paragraphs make the search fail, the whole document fails with that error. */
  lemma ReadingFailureStays(law: string, paragraphs: seq<string>, i: nat, q: Query)
    requires i <= |paragraphs|
    requires Collect(FeedAll(law, paragraphs[..i]).emitted, q).Failure?
    ensures Collect(Segment(law, paragraphs), q) == Collect(FeedAll(law, paragraphs[..i]).emitted, q)
  {
    var pre, rest := paragraphs[..i], paragraphs[i..];
    var s := FeedAll(law, pre);
    var after := SegmentFrom(law, rest, s.last, s.acc);
    assert s.emitted + after == Segment(law, paragraphs) by {
      FeedAllThenSegment(law, pre, rest);
      assert pre + rest == paragraphs;
    }
    CollectFailureStays(s.emitted, after, q);
  }

  /**
   * The loop over the paragraphs of one document: the segmenter's state machine,
   * with each completed article evaluated at once. The articles evaluated so
   * far, followed by what the segmenter still emits from the current state, are
   * always the articles of the document.
   */
  method SearchDocument(law: string, paragraphs: seq<string>, q: Query) returns (r: Results)
    ensures r == Collect(Segment(law, paragraphs), q)
  {
    var lastArticle := UnknownArticle;
    var current: seq<string> := [];
    var results: seq<SearchResult> := [];
    ghost var emitted: seq<Article> := [];
    for i := 0 to |paragraphs|
      invariant FeedAll(law, paragraphs[..i]) == Reading(emitted, lastArticle, current)
      invariant Collect(emitted, q) == Success(results)
    {
      assert paragraphs[..i + 1] == paragraphs[..i] + [paragraphs[i]];
      FeedAllSnoc(law, paragraphs[..i], paragraphs[i]);
      var txt := Strip(paragraphs[i]);
      if txt == [] {
        continue;
      }
      match MarkerNumber(txt)
      case Some(n) =>
        if current != [] {
          var a := Article(law, lastArticle, current);
          var added := AddArticle(emitted, results, a, q);
          if added.Failure? {
            assert FeedAll(law, paragraphs[..i + 1]).emitted == emitted + [a];
            ReadingFailureStays(law, paragraphs, i + 1, q);
            return added;
          }
          results := added.value;
          emitted := emitted + [a];
        }
        lastArticle := n;
        current := [txt];
      case None =>
        current := current + [txt];
    }
    assert paragraphs[..|paragraphs|] == paragraphs;
    SegmentByFeeding(law, paragraphs);
    if current != [] {
      r := AddArticle(emitted, results, Article(law, lastArticle, current), q);
    } else {
      assert emitted + [] == emitted;
      r := Success(results);
    }
  }

  /** The articles of all the documents, document after document. */
  function AllArticles(docs: seq<LawDocument>): seq<Article>
    decreases |docs|
  {
    if docs == [] then []
    else AllArticles(docs[..|docs| - 1]) + Segment(LawName(docs[|docs| - 1].file), docs[|docs| - 1].paragraphs)
  }

  /** The documents searched in order, the results of each following those of the ones before. */
  method SearchDocuments(docs: seq<LawDocument>, q: Query) returns (r: Results)
    ensures r == Collect(AllArticles(docs), q)
  {
    var results: seq<SearchResult> := [];
    for i := 0 to |docs|
      invariant Collect(AllArticles(docs[..i]), q) == Success(results)
    {
      var doc := docs[i];
      var lawName := LawName(doc.file);
      var found := SearchDocument(lawName, doc.paragraphs, q);
      ghost var before, now := AllArticles(docs[..i]), Segment(lawName, doc.paragraphs);
      assert docs[..i + 1][..i] == docs[..i] && docs[..i + 1][i] == doc;
      assert AllArticles(docs[..i + 1]) == before + now;
      CollectAppend(before, now, q);
      if found.Failure? {
        PrefixArticles(docs, i + 1);
        CollectFailureStays(before + now, AllArticles(docs)[|before + now|..], q);
        return found;
      }
      results := results + found.value;
    }
    assert docs[..|docs|] == docs;
    return Success(results);
  }

  /**
   * The search started from the form: the query is built from the three
   * fields, then the documents are searched.
   */
  method SearchLaws(docs: seq<LawDocument>, keywordField: string, articleField: string, exactMatch: bool)
    returns (r: Results)
    ensures r == Collect(AllArticles(docs), Prepare(keywordField, articleField, exactMatch))
  {
    var q := Prepare(keywordField, articleField, exactMatch);
    r := SearchDocuments(docs, q);
  }

  /** The articles of the first documents come first among the articles of all of them. */
  lemma {:induction false} PrefixArticles(docs: seq<LawDocument>, k: nat)
    requires k <= |docs|
    ensures |AllArticles(docs[..k])| <= |AllArticles(docs)|
    ensures AllArticles(docs) == AllArticles(docs[..k]) + AllArticles(docs)[|AllArticles(docs[..k])|..]
    decreases |docs| - k
  {
    if k == |docs| {
      assert docs[..k] == docs;
    } else {
      PrefixArticles(docs, k + 1);
      assert docs[..k + 1][..k] == docs[..k];
    }
  }

  /** The elements of `xs` that satisfy `p`, in order. */
  function Filter<A>(p: A -> bool, xs: seq<A>): (ys: seq<A>)
    ensures |ys| <= |xs|
    decreases |xs|
  {
    if xs == [] then []
    else Filter(p, xs[..|xs| - 1]) + (if p(xs[|xs| - 1]) then [xs[|xs| - 1]] else [])
  }

  /** The articles that qualify, in order. */
  function Selected(arts: seq<Article>, q: Query): seq<Article> {
    Filter(Selects(q), arts)
  }

  /** A result stands for an article: same law, same number, its text as plain text, and its highlighted text. */
  predicate ResultFor(r: SearchResult, a: Article, q: Query) {
    && r.law == a.law
    && r.num == a.num
    && r.plain == ArticleText(a)
    && (if q.keywords == [] then r.text == r.plain
        else Highlighted(r.plain, q.keywords, q.normalizedKeywords, q.exactMatch) == Success(r.text))
  }

  /** The highlighter's error arises: an exact-match search with keywords, one of which normalises to a non-empty text. */
  predicate HighlightFails(q: Query) {
    q.keywords != [] && q.exactMatch && exists j :: 0 <= j < |q.normalizedKeywords| && q.normalizedKeywords[j] != []
  }

  /**
   * What happens to one article: nothing exactly when it does not qualify; a
   * result standing for it when it qualifies and highlighting succeeds; the
   * undefined-name error when it qualifies and highlighting reaches it.
   */
  lemma OutcomeOf(a: Article, q: Query)
    requires |q.normalizedKeywords| == |q.keywords|
    ensures ArticleOutcome(a, q) == Success(None) <==> !Qualifies(ArticleText(a), a.num, q)
    ensures ArticleOutcome(a, q).Success? && ArticleOutcome(a, q).value.Some? ==> ResultFor(ArticleOutcome(a, q).value.value, a, q)
    ensures ArticleOutcome(a, q).Failure? <==> Qualifies(ArticleText(a), a.num, q) && HighlightFails(q)
    ensures ArticleOutcome(a, q).Failure? ==> ArticleOutcome(a, q).error == NameError
  {
    HighlightFailsIff(ArticleText(a), q.keywords, q.normalizedKeywords, q.exactMatch);
  }

  lemma FilterSnoc<A>(p: A -> bool, xs: seq<A>, x: A)
    ensures Filter(p, xs + [x]) == Filter(p, xs) + (if p(x) then [x] else [])
  {
    assert (xs + [x])[..|xs + [x]| - 1] == xs;
  }

  lemma ProducedSnoc(os: seq<Outcome>, o: Outcome)
    ensures Produced(os + [o]) == Produced(os) + (if o.Success? && o.value.Some? then [o.value.value] else [])
  {
    assert (os + [o])[..|os + [o]| - 1] == os;
  }

  /**
   * When each outcome is a success that carries a result exactly for the
   * articles `sel` picks, a result related by `rel` to its article, the
   * results produced are related one by one to the articles picked.
   */
  lemma {:induction false} ProducedFilter(os: seq<Outcome>, arts: seq<Article>, sel: Article -> bool, rel: (SearchResult, Article) -> bool)
    requires |os| == |arts|
    requires forall k :: 0 <= k < |os| ==> os[k].Success? && (os[k].value.Some? <==> sel(arts[k]))
    requires forall k :: 0 <= k < |os| && os[k].Success? && os[k].value.Some? ==> rel(os[k].value.value, arts[k])
    ensures |Produced(os)| == |Filter(sel, arts)|
    ensures forall k :: 0 <= k < |Produced(os)| ==> rel(Produced(os)[k], Filter(sel, arts)[k])
    decreases |os|
  {
    if os != [] {
      var n := |os|;
      var os0, arts0 := os[..n - 1], arts[..n - 1];
      assert os0 + [os[n - 1]] == os && arts0 + [arts[n - 1]] == arts;
      ProducedFilter(os0, arts0, sel, rel);
      ProducedSnoc(os0, os[n - 1]);
      FilterSnoc(sel, arts0, arts[n - 1]);
    }
  }

  /** The test that picks the articles that are results, as a function value. */
  function Selects(q: Query): Article -> bool {
    (a: Article) => Qualifies(ArticleText(a), a.num, q)
  }

  /** `ResultFor` as a function value. */
  function StandsFor(q: Query): (SearchResult, Article) -> bool {
    (r: SearchResult, a: Article) => ResultFor(r, a, q)
  }

  /** When every article's outcome is a success, the results produced stand for the selected articles, one each, in order. */
  lemma ProducedAreSelected(arts: seq<Article>, q: Query)
    requires |q.normalizedKeywords| == |q.keywords|
    requires forall k :: 0 <= k < |arts| ==> Outcomes(arts, q)[k].Success?
    ensures |Produced(Outcomes(arts, q))| == |Selected(arts, q)|
    ensures forall k :: 0 <= k < |Selected(arts, q)| ==> ResultFor(Produced(Outcomes(arts, q))[k], Selected(arts, q)[k], q)
  {
    var os, sel, rel := Outcomes(arts, q), Selects(q), StandsFor(q);
    forall k | 0 <= k < |os|
      ensures os[k].Success? && (os[k].value.Some? <==> sel(arts[k]))
      ensures os[k].Success? && os[k].value.Some? ==> rel(os[k].value.value, arts[k])
    {
      OutcomeOf(arts[k], q);
    }
    ProducedFilter(os, arts, sel, rel);
    var ps, ss := Produced(os), Selected(arts, q);
    forall k | 0 <= k < |ss|
      ensures ResultFor(ps[k], ss[k], q)
    {
      assert rel(ps[k], ss[k]);
    }
  }

  /**
   * A search that succeeds returns one result per qualifying article, in the
   * order of the articles, and nothing else.
   */
  lemma ResultsAreSelectedArticles(arts: seq<Article>, q: Query)
    requires |q.normalizedKeywords| == |q.keywords|
    requires Collect(arts, q).Success?
    ensures |Collect(arts, q).value| == |Selected(arts, q)|
    ensures forall k :: 0 <= k < |Selected(arts, q)| ==> ResultFor(Collect(arts, q).value[k], Selected(arts, q)[k], q)
  {
    GatherSucceeds(Outcomes(arts, q));
    ProducedAreSelected(arts, q);
  }

  /**
   * A search fails exactly when the highlighter's error arises and some article
   * qualifies: that article's highlighting reaches the undefined name.
   */
  lemma CollectFailsIff(arts: seq<Article>, q: Query)
    requires |q.normalizedKeywords| == |q.keywords|
    ensures Collect(arts, q).Failure? <==>
      HighlightFails(q) && exists k :: 0 <= k < |arts| && Qualifies(ArticleText(arts[k]), arts[k].num, q)
    ensures Collect(arts, q).Failure? ==> Collect(arts, q).error == NameError
  {
    var os := Outcomes(arts, q);
    GatherSucceeds(os);
    forall k | 0 <= k < |arts|
      ensures os[k].Failure? <==> HighlightFails(q) && Qualifies(ArticleText(arts[k]), arts[k].num, q)
      ensures os[k].Failure? ==> os[k].error == NameError
    {
      OutcomeOf(arts[k], q);
    }
  }

  /** A search for nothing (no keyword, a blank number field) finds nothing, in any documents. */
  lemma {:induction false} EmptySearchFindsNothing(docs: seq<LawDocument>, keywordField: string, articleField: string, exactMatch: bool)
    requires ParseKeywords(keywordField) == [] && Strip(articleField) == []
    ensures Collect(AllArticles(docs), Prepare(keywordField, articleField, exactMatch)) == Success([])
  {
    var arts := AllArticles(docs);
    var q := Prepare(keywordField, articleField, exactMatch);
    EmptyNoResults(arts, keywordField, articleField, exactMatch);
  }

  /** With no keyword and no article number, the articles give no result and no error. */
  lemma EmptyNoResults(arts: seq<Article>, keywordField: string, articleField: string, exactMatch: bool)
    requires ParseKeywords(keywordField) == [] && Strip(articleField) == []
    ensures Collect(arts, Prepare(keywordField, articleField, exactMatch)) == Success([])
  {
    var q := Prepare(keywordField, articleField, exactMatch);
    var os := Outcomes(arts, q);
    forall k | 0 <= k < |arts|
      ensures os[k] == Success(None)
    {
      EmptyQueryMatchesNothing(ArticleText(arts[k]), arts[k].num, keywordField, articleField, exactMatch);
    }
    GatherSucceeds(os);
    NothingProduced(os);
  }

  lemma {:induction false} NothingProduced(os: seq<Outcome>)
    requires forall k :: 0 <= k < |os| ==> os[k] == Success(None)
    ensures Produced(os) == []
    decreases |os|
  {
    if os != [] {
      NothingProduced(os[..|os| - 1]);
    }
  }
}
