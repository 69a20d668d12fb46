/**
 * The article segmenter of the search form: a document is a sequence of
 * paragraphs; every non-empty stripped paragraph that starts with an article
 * marker `مادة (n)` closes the article gathered so far and opens the next one,
 * numbered n. The marker paragraph is itself the first paragraph of the article
 * it opens. Text before the first marker belongs to an article numbered
 * "غير معروفة" (unknown).
 */
module Segmenter {
  import opened Text
  import opened Wrappers

  /** The word that opens an article marker. */
  const ArticleWord: string := "مادة"

  /** The number given to the text before the first marker. */
  const UnknownArticle: string := "غير معروفة"

  /** An article of one law: its number and its paragraphs; its text is the paragraphs joined by newlines. */
  datatype Article = Article(law: string, num: string, paragraphs: seq<string>)

  function ArticleText(a: Article): string {
    Join(a.paragraphs, '\n')
  }

  /** The position after the whitespace that starts at `j` (the regex `\s*`). */
  function SkipSpaces(p: string, j: nat): (k: nat)
    requires j <= |p|
    ensures j <= k <= |p|
    ensures k < |p| ==> !IsSpace(p[k])
    decreases |p| - j
  {
    if j < |p| && IsSpace(p[j]) then SkipSpaces(p, j + 1) else j
  }

  /** Everything skipped is whitespace. */
  lemma {:induction false} SkippedSpaces(p: string, j: nat)
    requires j <= |p|
    ensures forall m :: j <= m < SkipSpaces(p, j) ==> IsSpace(p[m])
    decreases |p| - j
  {
    if j < |p| && IsSpace(p[j]) {
      SkippedSpaces(p, j + 1);
    }
  }

  /** The position after the digits that start at `j` (the greedy regex `\d+` when it moves). */
  function SkipDigits(p: string, j: nat): (k: nat)
    requires j <= |p|
    ensures j <= k <= |p|
    ensures k < |p| ==> !IsDigit(p[k])
    decreases |p| - j
  {
    if j < |p| && IsDigit(p[j]) then SkipDigits(p, j + 1) else j
  }

  /** Everything skipped is a digit. */
  lemma {:induction false} SkippedDigits(p: string, j: nat)
    requires j <= |p|
    ensures forall m :: j <= m < SkipDigits(p, j) ==> IsDigit(p[m])
    decreases |p| - j
  {
    if j < |p| && IsDigit(p[j]) {
      SkippedDigits(p, j + 1);
    }
  }

  /** `p` starts with the article word. */
  predicate StartsWithArticleWord(p: string) {
    |ArticleWord| <= |p| && p[..|ArticleWord|] == ArticleWord
  }

  /**
   * `re.match(r"مادة\s*[\(]?\s*(\d+)[\)]?", txt)` and its group 1: the marker
   * must stand at the start of the paragraph; the number is the whole run of
   * digits after the optional whitespace and parenthesis. Nothing is required
   * after the digits. There is a marker exactly when a digit stands where the
   * number must start.
   */
  function MarkerNumber(p: string): (r: Option<string>)
    ensures r.Some? <==> StartsWithArticleWord(p) && DigitsStart(p) < |p| && IsDigit(p[DigitsStart(p)])
    ensures r.Some? ==> r.value != [] && forall i :: 0 <= i < |r.value| ==> IsDigit(r.value[i])
    ensures r.Some? ==>
      var b := DigitsStart(p);
      && b + |r.value| <= |p| && r.value == p[b..b + |r.value|]
      && (b + |r.value| == |p| || !IsDigit(p[b + |r.value|]))
  {
    if !StartsWithArticleWord(p) then None
    else
      var b := DigitsStart(p);
      var e := SkipDigits(p, b);
      SkippedDigits(p, b);
      if e == b then None else Some(p[b..e])
  }

  /**
   * Where the number of a marker must start: after the article word, whitespace,
   * an optional `(` and whitespace. Only whitespace and at most one `(` are
   * skipped, the `(` is taken whenever it is there, and what follows is not whitespace.
   */
  function DigitsStart(p: string): (b: nat)
    requires |ArticleWord| <= |p|
    ensures |ArticleWord| <= b <= |p|
    ensures forall i :: |ArticleWord| <= i < b ==> IsSpace(p[i]) || p[i] == '('
    ensures forall i, j :: |ArticleWord| <= i < j < b && p[i] == '(' ==> p[j] != '('
    ensures (forall i :: |ArticleWord| <= i < b ==> p[i] != '(') ==> b == |p| || p[b] != '('
    ensures b < |p| ==> !IsSpace(p[b])
  {
    var a := SkipSpaces(p, |ArticleWord|);
    SkippedSpaces(p, |ArticleWord|);
    if a < |p| && p[a] == '(' then
      SkippedSpaces(p, a + 1);
      SkipSpaces(p, a + 1)
    else a
  }

  /** Skipping the whitespace that follows a prefix `u` and is followed by something else. */
  lemma SkipSpacesAfter(u: string, sp: string, v: string)
    requires forall i :: 0 <= i < |sp| ==> IsSpace(sp[i])
    requires v == [] || !IsSpace(v[0])
    ensures SkipSpaces(u + sp + v, |u|) == |u| + |sp|
  {
    var p := u + sp + v;
    SkippedSpaces(p, |u|);
    forall x | |u| <= x < |u| + |sp|
      ensures IsSpace(p[x])
    {
      assert p[x] == sp[x - |u|];
    }
    assert |u| + |sp| < |p| ==> p[|u| + |sp|] == v[0];
  }

  /** Skipping the digits that follow a prefix `u` and are followed by something else. */
  lemma SkipDigitsAfter(u: string, ds: string, v: string)
    requires forall i :: 0 <= i < |ds| ==> IsDigit(ds[i])
    requires v == [] || !IsDigit(v[0])
    ensures SkipDigits(u + ds + v, |u|) == |u| + |ds|
  {
    var p := u + ds + v;
    SkippedDigits(p, |u|);
    forall x | |u| <= x < |u| + |ds|
      ensures IsDigit(p[x])
    {
      assert p[x] == ds[x - |u|];
    }
    assert |u| + |ds| < |p| ==> p[|u| + |ds|] == v[0];
  }

  /** A marker whose digits start where they must, followed by something that is not a digit. */
  lemma MarkerDigits(u: string, digits: string, rest: string)
    requires |ArticleWord| <= |u| && u[..|ArticleWord|] == ArticleWord
    requires DigitsStart(u + digits + rest) == |u|
    requires digits != [] && forall i :: 0 <= i < |digits| ==> IsDigit(digits[i])
    requires rest == [] || !IsDigit(rest[0])
    ensures MarkerNumber(u + digits + rest) == Some(digits)
  {
    var p := u + digits + rest;
    assert p[..|ArticleWord|] == u[..|ArticleWord|];
    SkipDigitsAfter(u, digits, rest);
    assert p[|u|..|u| + |digits|] == digits;
  }

  /** A marker whose article word is followed by whitespace and then the digits. */
  lemma MarkerWithoutParenthesis(sp: string, digits: string, rest: string)
    requires forall i :: 0 <= i < |sp| ==> IsSpace(sp[i])
    requires digits != [] && forall i :: 0 <= i < |digits| ==> IsDigit(digits[i])
    requires rest == [] || !IsDigit(rest[0])
    ensures MarkerNumber(ArticleWord + sp + digits + rest) == Some(digits)
  {
    var u, v := ArticleWord + sp, digits + rest;
    assert IsDigit(v[0]) && !IsSpace(v[0]);
    SkipSpacesAfter(ArticleWord, sp, v);
    assert (ArticleWord + sp + v)[|u|] == digits[0];
    assert ArticleWord + sp + v == u + digits + rest;
    assert u[..|ArticleWord|] == ArticleWord;
    MarkerDigits(u, digits, rest);
  }

  /** After the article word: whitespace, an opening parenthesis and whitespace, followed by something else. */
  lemma StartAfterParenthesis(sp1: string, sp2: string, v: string)
    requires forall i :: 0 <= i < |sp1| ==> IsSpace(sp1[i])
    requires forall i :: 0 <= i < |sp2| ==> IsSpace(sp2[i])
    requires v == [] || !IsSpace(v[0])
    ensures DigitsStart(ArticleWord + sp1 + "(" + sp2 + v) == |ArticleWord| + |sp1| + 1 + |sp2|
  {
    var p := ArticleWord + sp1 + "(" + sp2 + v;
    var a := |ArticleWord| + |sp1|;
    assert p[..|ArticleWord|] == ArticleWord;
    assert p == ArticleWord + sp1 + ("(" + sp2 + v);
    SkipSpacesAfter(ArticleWord, sp1, "(" + sp2 + v);
    assert p[a] == '(';
    assert p == (ArticleWord + sp1 + "(") + sp2 + v;
    SkipSpacesAfter(ArticleWord + sp1 + "(", sp2, v);
  }

  /** A marker whose article word is followed by whitespace, an opening parenthesis, whitespace and the digits. */
  lemma MarkerWithParenthesis(sp1: string, sp2: string, digits: string, rest: string)
    requires forall i :: 0 <= i < |sp1| ==> IsSpace(sp1[i])
    requires forall i :: 0 <= i < |sp2| ==> IsSpace(sp2[i])
    requires digits != [] && forall i :: 0 <= i < |digits| ==> IsDigit(digits[i])
    requires rest == [] || !IsDigit(rest[0])
    ensures MarkerNumber(ArticleWord + sp1 + "(" + sp2 + digits + rest) == Some(digits)
  {
    var u, v := ArticleWord + sp1 + "(" + sp2, digits + rest;
    assert IsDigit(v[0]) && !IsSpace(v[0]);
    StartAfterParenthesis(sp1, sp2, v);
    assert ArticleWord + sp1 + "(" + sp2 + v == u + digits + rest;
    assert u[..|ArticleWord|] == ArticleWord;
    MarkerDigits(u, digits, rest);
  }

  /** The unknown number is never the number of a marker: it is not made of digits. */
  lemma UnknownIsNoMarkerNumber(p: string)
    ensures MarkerNumber(p) != Some(UnknownArticle)
  {
    var r := MarkerNumber(p);
    if r.Some? {
      assert IsDigit(r.value[0]);
      assert !IsDigit(UnknownArticle[0]);
    }
  }

  /** The article under construction, if it has any paragraph. */
  function Flush(law: string, last: string, acc: seq<string>): seq<Article> {
    if acc == [] then [] else [Article(law, last, acc)]
  }

  /**
   * The articles the segmenter emits from the state (`last`, `acc`) on, for the
   * remaining paragraphs: empty paragraphs are skipped, a marker flushes the
   * article gathered so far and starts a new one with the marker paragraph,
   * any other paragraph is added to the current article, and the end of the
   * document flushes the last article.
   */
  function SegmentFrom(law: string, paras: seq<string>, last: string, acc: seq<string>): seq<Article>
    decreases |paras|
  {
    if paras == [] then Flush(law, last, acc)
    else
      var txt := Strip(paras[0]);
      if txt == [] then SegmentFrom(law, paras[1..], last, acc)
      else match MarkerNumber(txt)
        case Some(n) => Flush(law, last, acc) + SegmentFrom(law, paras[1..], n, [txt])
        case None => SegmentFrom(law, paras[1..], last, acc + [txt])
  }

  /** The articles of a document, in order. */
  function Segment(law: string, paras: seq<string>): seq<Article> {
    SegmentFrom(law, paras, UnknownArticle, [])
  }

  /** All paragraphs of the articles, in order. */
  function Paragraphs(arts: seq<Article>): seq<string>
    decreases |arts|
  {
    if arts == [] then [] else arts[0].paragraphs + Paragraphs(arts[1..])
  }

  lemma {:induction false} ParagraphsAppend(xs: seq<Article>, ys: seq<Article>)
    ensures Paragraphs(xs + ys) == Paragraphs(xs) + Paragraphs(ys)
    decreases |xs|
  {
    if xs != [] {
      ParagraphsAppend(xs[1..], ys);
      assert (xs + ys)[0] == xs[0];
      assert (xs + ys)[1..] == xs[1..] + ys;
    } else {
      assert xs + ys == ys;
    }
  }

  /** From any state, the emitted articles hold the gathered paragraphs and then the kept ones. */
  lemma {:induction false} SegmentFromKeepsEverything(law: string, paras: seq<string>, last: string, acc: seq<string>)
    ensures Paragraphs(SegmentFrom(law, paras, last, acc)) == acc + Kept(paras)
    decreases |paras|
  {
    if paras != [] {
      var txt := Strip(paras[0]);
      if txt == [] {
        SegmentFromKeepsEverything(law, paras[1..], last, acc);
      } else {
        match MarkerNumber(txt)
        case Some(n) =>
          SegmentFromKeepsEverything(law, paras[1..], n, [txt]);
          ParagraphsAppend(Flush(law, last, acc), SegmentFrom(law, paras[1..], n, [txt]));
        case None =>
          SegmentFromKeepsEverything(law, paras[1..], last, acc + [txt]);
      }
    }
  }

  /**
   * Segmentation loses, duplicates and reorders nothing: the articles'
   * paragraphs, in order, are the non-empty stripped paragraphs of the document.
   */
  lemma SegmentKeepsEverything(law: string, paras: seq<string>)
    ensures Paragraphs(Segment(law, paras)) == Kept(paras)
  {
    SegmentFromKeepsEverything(law, paras, UnknownArticle, []);
  }

  /**
   * The shape of an article: it has paragraphs, only its first paragraph may be
   * a marker, and it is numbered by that marker or, when it has none, unknown.
   */
  predicate WellNumbered(a: Article) {
    && a.paragraphs != []
    && (forall j :: 1 <= j < |a.paragraphs| ==> MarkerNumber(a.paragraphs[j]).None?)
    && (MarkerNumber(a.paragraphs[0]) == Some(a.num)
        || (MarkerNumber(a.paragraphs[0]).None? && a.num == UnknownArticle))
  }

  /** No paragraph of the article is a marker. */
  predicate NoMarker(a: Article) {
    forall j :: 0 <= j < |a.paragraphs| ==> MarkerNumber(a.paragraphs[j]).None?
  }

  /** The article opens with its own marker. */
  predicate OpensWithMarker(a: Article) {
    a.paragraphs != [] && MarkerNumber(a.paragraphs[0]) == Some(a.num)
  }

  /** The segmenter's state: nothing gathered yet under the unknown number, or a well-numbered article in progress. */
  predicate StateOk(law: string, last: string, acc: seq<string>) {
    if acc == [] then last == UnknownArticle else WellNumbered(Article(law, last, acc))
  }

  /** Every article is a well-numbered article of `law`, and every one after the first opens with its marker. */
  predicate NumberedByMarkers(law: string, arts: seq<Article>) {
    && (forall k :: 0 <= k < |arts| ==> WellNumbered(arts[k]) && arts[k].law == law)
    && (forall k :: 0 < k < |arts| ==> OpensWithMarker(arts[k]))
  }

  lemma {:induction false} SegmentFromNumbering(law: string, paras: seq<string>, last: string, acc: seq<string>)
    requires StateOk(law, last, acc)
    ensures NumberedByMarkers(law, SegmentFrom(law, paras, last, acc))
    ensures acc != [] ==>
      (&& SegmentFrom(law, paras, last, acc) != []
       && SegmentFrom(law, paras, last, acc)[0].num == last
       && SegmentFrom(law, paras, last, acc)[0].paragraphs[0] == acc[0])
    decreases |paras|
  {
    if paras != [] {
      var txt := Strip(paras[0]);
      if txt == [] {
        SegmentFromNumbering(law, paras[1..], last, acc);
      } else {
        match MarkerNumber(txt)
        case Some(n) =>
          var rest := SegmentFrom(law, paras[1..], n, [txt]);
          SegmentFromNumbering(law, paras[1..], n, [txt]);
          assert rest != [] && OpensWithMarker(rest[0]);
          var arts := Flush(law, last, acc) + rest;
          forall k | 0 < k < |arts|
            ensures OpensWithMarker(arts[k])
          {
            if acc != [] {
              assert arts[k] == rest[k - 1];
            }
          }
        case None =>
          assert WellNumbered(Article(law, last, acc + [txt])) by {
            if acc == [] {
              assert (acc + [txt])[0] == txt;
            } else {
              assert (acc + [txt])[0] == acc[0];
            }
          }
          SegmentFromNumbering(law, paras[1..], last, acc + [txt]);
      }
    }
  }

  /**
   * Article numbering follows the markers: every article is well numbered;
   * every article after the first opens with its marker and carries that
   * marker's number; so only a first article, holding no marker at all, can
   * be numbered unknown.
   */
  lemma SegmentNumbering(law: string, paras: seq<string>)
    ensures NumberedByMarkers(law, Segment(law, paras))
    ensures forall k :: 0 <= k < |Segment(law, paras)| && Segment(law, paras)[k].num == UnknownArticle ==>
      k == 0 && NoMarker(Segment(law, paras)[k])
  {
    var arts := Segment(law, paras);
    SegmentFromNumbering(law, paras, UnknownArticle, []);
    forall k | 0 <= k < |arts| && arts[k].num == UnknownArticle
      ensures k == 0 && NoMarker(arts[k])
    {
      assert WellNumbered(arts[k]);
      UnknownIsNoMarkerNumber(arts[k].paragraphs[0]);
    }
  }

  /** None of the paragraphs is a marker. */
  predicate Unmarked(ks: seq<string>) {
    forall k :: 0 <= k < |ks| ==> MarkerNumber(ks[k]).None?
  }

  /** A kept first paragraph that is not a marker, and the rest of the document without markers. */
  lemma UnmarkedHead(paras: seq<string>)
    requires paras != [] && Strip(paras[0]) != []
    requires Unmarked(Kept(paras))
    ensures Kept(paras) == [Strip(paras[0])] + Kept(paras[1..])
    ensures MarkerNumber(Strip(paras[0])).None?
    ensures Unmarked(Kept(paras[1..]))
  {
    var kp, kr := Kept(paras), Kept(paras[1..]);
    assert kp[0] == Strip(paras[0]);
    forall k | 0 <= k < |kr|
      ensures MarkerNumber(kr[k]).None?
    {
      assert kr[k] == kp[k + 1];
    }
  }

  /** Without markers, everything gathered and kept becomes one article under the current number. */
  lemma {:induction false} SegmentFromWithoutMarkers(law: string, paras: seq<string>, last: string, acc: seq<string>)
    requires Unmarked(Kept(paras))
    ensures SegmentFrom(law, paras, last, acc) == Flush(law, last, acc + Kept(paras))
    decreases |paras|
  {
    if paras == [] {
      assert acc + Kept(paras) == acc;
    } else if Strip(paras[0]) == [] {
      assert Kept(paras) == Kept(paras[1..]);
      SegmentFromWithoutMarkers(law, paras[1..], last, acc);
    } else {
      var txt := Strip(paras[0]);
      UnmarkedHead(paras);
      SegmentFromWithoutMarkers(law, paras[1..], last, acc + [txt]);
      assert acc + [txt] + Kept(paras[1..]) == acc + Kept(paras);
    }
  }

  /** A document with no marker yields at most one article: all its text, numbered unknown. */
  lemma SegmentWithoutMarkers(law: string, paras: seq<string>)
    requires Unmarked(Kept(paras))
    ensures Segment(law, paras) == if Kept(paras) == [] then [] else [Article(law, UnknownArticle, Kept(paras))]
  {
    SegmentFromWithoutMarkers(law, paras, UnknownArticle, []);
    assert [] + Kept(paras) == Kept(paras);
  }

  /**
   * The segmenter's state while it reads a document from left to right: the
   * articles already emitted, the number of the open article and its
   * paragraphs so far.
   */
  datatype Reading = Reading(emitted: seq<Article>, last: string, acc: seq<string>)

  /** Reading one more paragraph. */
  function Feed(law: string, s: Reading, p: string): Reading {
    var txt := Strip(p);
    if txt == [] then s
    else match MarkerNumber(txt)
      case Some(n) => Reading(s.emitted + Flush(law, s.last, s.acc), n, [txt])
      case None => Reading(s.emitted, s.last, s.acc + [txt])
  }

  /** `step` applied to the elements of `xs` from left to right, starting from `init`. */
  function FoldLeft<S, X>(step: (S, X) -> S, init: S, xs: seq<X>): S
    decreases |xs|
  {
    if xs == [] then init else step(FoldLeft(step, init, xs[..|xs| - 1]), xs[|xs| - 1])
  }

  lemma FoldLeftSnoc<S, X>(step: (S, X) -> S, init: S, xs: seq<X>, x: X)
    ensures FoldLeft(step, init, xs + [x]) == step(FoldLeft(step, init, xs), x)
  {
    assert (xs + [x])[..|xs + [x]| - 1] == xs;
  }

  /**
   * When `cont` describes what remains to be done from a state, and one step
   * moves the first element from the remaining input into the state, then
   * folding a prefix and continuing with the rest is continuing with everything.
   */
  lemma {:induction false} FoldLeftThen<S, X, T>(step: (S, X) -> S, cont: (S, seq<X>) -> T, init: S, pre: seq<X>, post: seq<X>)
    requires forall s, xs :: xs != [] ==> cont(s, xs) == cont(step(s, xs[0]), xs[1..])
    ensures cont(FoldLeft(step, init, pre), post) == cont(init, pre + post)
    decreases |pre|
  {
    if pre == [] {
      assert pre + post == post;
    } else {
      var n := |pre|;
      var front, x := pre[..n - 1], pre[n - 1];
      var more := [x] + post;
      FoldLeftThen(step, cont, init, front, more);
      assert front + more == pre + post;
      assert more[0] == x && more[1..] == post;
      assert FoldLeft(step, init, pre) == step(FoldLeft(step, init, front), x);
    }
  }

  /** The state before the first paragraph. */
  const Start := Reading([], UnknownArticle, [])

  /** Reading one paragraph, as a function value. */
  function FeedStep(law: string): (Reading, string) -> Reading {
    (s: Reading, p: string) => Feed(law, s, p)
  }

  /** What has been emitted in a state followed by what the segmenter emits from it for the paragraphs left. */
  function Emitting(law: string): (Reading, seq<string>) -> seq<Article> {
    (s: Reading, ps: seq<string>) => s.emitted + SegmentFrom(law, ps, s.last, s.acc)
  }

  /** The state after reading the paragraphs `ps` from the start of a document. */
  function FeedAll(law: string, ps: seq<string>): Reading {
    FoldLeft(FeedStep(law), Start, ps)
  }

  /** One paragraph read moves it from what is still to be emitted to the state. */
  lemma FeedThenSegment(law: string, s: Reading, p: string, rest: seq<string>)
    ensures s.emitted + SegmentFrom(law, [p] + rest, s.last, s.acc)
         == Feed(law, s, p).emitted + SegmentFrom(law, rest, Feed(law, s, p).last, Feed(law, s, p).acc)
  {
    assert ([p] + rest)[0] == p && ([p] + rest)[1..] == rest;
    var txt := Strip(p);
    if txt != [] && MarkerNumber(txt).Some? {
      var f := Flush(law, s.last, s.acc);
      var g := SegmentFrom(law, rest, MarkerNumber(txt).value, [txt]);
      assert s.emitted + (f + g) == (s.emitted + f) + g;
    }
  }

  lemma FeedAllSnoc(law: string, init: seq<string>, p: string)
    ensures FeedAll(law, init + [p]) == Feed(law, FeedAll(law, init), p)
  {
    FoldLeftSnoc(FeedStep(law), Start, init, p);
  }

  /**
   * The left-to-right reading agrees with the segmentation: what is emitted
   * after reading `pre`, followed by what is emitted from that state on, is
   * the segmentation of the whole document.
   */
  lemma FeedAllThenSegment(law: string, pre: seq<string>, rest: seq<string>)
    ensures FeedAll(law, pre).emitted + SegmentFrom(law, rest, FeedAll(law, pre).last, FeedAll(law, pre).acc)
         == Segment(law, pre + rest)
  {
    var step, cont := FeedStep(law), Emitting(law);
    forall s: Reading, xs: seq<string> | xs != []
      ensures cont(s, xs) == cont(step(s, xs[0]), xs[1..])
    {
      assert [xs[0]] + xs[1..] == xs;
      FeedThenSegment(law, s, xs[0], xs[1..]);
    }
    FoldLeftThen(step, cont, Start, pre, rest);
    var all := SegmentFrom(law, pre + rest, UnknownArticle, []);
    assert [] + all == all;
  }

  /** A whole document read from left to right, with the open article flushed at the end, gives its articles. */
  lemma SegmentByFeeding(law: string, ps: seq<string>)
    ensures Segment(law, ps) == FeedAll(law, ps).emitted + Flush(law, FeedAll(law, ps).last, FeedAll(law, ps).acc)
  {
    var none: seq<string> := [];
    FeedAllThenSegment(law, ps, none);
    assert ps + none == ps;
  }

  /** One step of the segmenter on a non-empty stripped marker paragraph. */
  lemma StepMarker(law: string, p: string, rest: seq<string>, last: string, acc: seq<string>, n: string)
    requires Strip(p) == p && p != [] && MarkerNumber(p) == Some(n)
    ensures SegmentFrom(law, [p] + rest, last, acc) == Flush(law, last, acc) + SegmentFrom(law, rest, n, [p])
  {
    assert ([p] + rest)[1..] == rest;
  }

  /** One step of the segmenter on a non-empty stripped paragraph that is not a marker. */
  lemma StepPlain(law: string, p: string, rest: seq<string>, last: string, acc: seq<string>)
    requires Strip(p) == p && p != [] && MarkerNumber(p) == None
    ensures SegmentFrom(law, [p] + rest, last, acc) == SegmentFrom(law, rest, last, acc + [p])
  {
    assert ([p] + rest)[1..] == rest;
  }

  /** A trailing paragraph joins the open article, which the end of the document flushes. */
  lemma LastParagraph(law: string, m: string, t: string, n: string)
    requires Strip(t) == t && t != [] && MarkerNumber(t) == None
    ensures SegmentFrom(law, [t], n, [m]) == [Article(law, n, [m, t])]
  {
    var none: seq<string> := [];
    StepPlain(law, t, none, n, [m]);
    assert [t] + none == [t];
    assert [m] + [t] == [m, t];
    assert SegmentFrom(law, none, n, [m, t]) == Flush(law, n, [m, t]);
  }

  /** Marker, text, marker, text: two articles, each opened by its marker and numbered by it. */
  lemma {:induction false} SegmentTwoArticles(law: string, m1: string, t1: string, m2: string, t2: string, n1: string, n2: string)
    requires Strip(m1) == m1 && Strip(m2) == m2 && Strip(t1) == t1 && Strip(t2) == t2
    requires m1 != [] && m2 != [] && t1 != [] && t2 != []
    requires MarkerNumber(m1) == Some(n1) && MarkerNumber(m2) == Some(n2)
    requires MarkerNumber(t1) == None && MarkerNumber(t2) == None
    ensures Segment(law, [m1, t1, m2, t2]) == [Article(law, n1, [m1, t1]), Article(law, n2, [m2, t2])]
  {
    var none: seq<string> := [];
    LastParagraph(law, m2, t2, n2);
    StepMarker(law, m2, [t2], n1, [m1, t1], n2);
    assert [m2] + [t2] == [m2, t2];
    assert SegmentFrom(law, [m2, t2], n1, [m1, t1]) == [Article(law, n1, [m1, t1]), Article(law, n2, [m2, t2])];
    StepPlain(law, t1, [m2, t2], n1, [m1]);
    assert [t1] + [m2, t2] == [t1, m2, t2];
    assert [m1] + [t1] == [m1, t1];
    StepMarker(law, m1, [t1, m2, t2], UnknownArticle, none, n1);
    assert [m1] + [t1, m2, t2] == [m1, t1, m2, t2];
  }

  /** A paragraph with no whitespace at its ends that does not start with the article word. */
  lemma PlainParagraph(p: string)
    requires p != [] && !IsSpace(p[0]) && !IsSpace(p[|p| - 1])
    requires |p| < |ArticleWord| || p[..|ArticleWord|] != ArticleWord
    ensures Strip(p) == p && MarkerNumber(p) == None
  {
    StripUnchanged(p);
  }

  /** The marker `مادة (d)` for a single digit d. */
  lemma MarkerParagraph(d: char)
    requires IsDigit(d) && !IsSpace(d)
    ensures Strip(ArticleWord + " (" + [d] + ")") == ArticleWord + " (" + [d] + ")"
    ensures MarkerNumber(ArticleWord + " (" + [d] + ")") == Some([d])
  {
    var m := ArticleWord + " (" + [d] + ")";
    StripUnchanged(m);
    assert m == ArticleWord + " " + "(" + "" + [d] + ")";
    MarkerWithParenthesis(" ", "", [d], ")");
  }

  /** The markers `مادة (1)` and `مادة (2)`, numbered 1 and 2. */
  lemma MarkersOneAndTwo()
    ensures Strip("مادة (1)") == "مادة (1)" && MarkerNumber("مادة (1)") == Some("1")
    ensures Strip("مادة (2)") == "مادة (2)" && MarkerNumber("مادة (2)") == Some("2")
  {
    assert "مادة (1)" == ArticleWord + " (" + ['1'] + ")";
    MarkerParagraph('1');
    assert "مادة (2)" == ArticleWord + " (" + ['2'] + ")";
    MarkerParagraph('2');
  }

  /** The document `مادة (1)`, `Text A`, `مادة (2)`, `Text B` yields articles 1 and 2, each holding its marker and its text. */
  lemma SegmentExample(law: string)
    ensures Segment(law, ["مادة (1)", "Text A", "مادة (2)", "Text B"])
      == [Article(law, "1", ["مادة (1)", "Text A"]), Article(law, "2", ["مادة (2)", "Text B"])]
  {
    MarkersOneAndTwo();
    PlainParagraph("Text A");
    PlainParagraph("Text B");
    SegmentTwoArticles(law, "مادة (1)", "Text A", "مادة (2)", "Text B", "1", "2");
  }

  /** A document of one ordinary paragraph is one article numbered unknown. */
  lemma SegmentPreamble(law: string)
    ensures Segment(law, ["Intro text"]) == [Article(law, UnknownArticle, ["Intro text"])]
  {
    var p := "Intro text";
    PlainParagraph(p);
    var ps: seq<string> := [p];
    assert ps[1..] == [];
    var none: seq<string> := [];
    assert none + [p] == [p];
    assert SegmentFrom(law, [], UnknownArticle, [p]) == [Article(law, UnknownArticle, [p])];
  }
}
