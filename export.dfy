/**
 * The export of the search results to a Word document: a title, then for each
 * result a heading naming its law and article and a paragraph holding its plain
 * text, with a page break between consecutive results; a search without
 * results gives the title and one paragraph saying so.
 *
 * The document is modelled as the sequence of elements added to it, in order.
 */
module Export {
  import opened Search

  /** An element added to the document. */
  datatype Element = Heading(text: string, level: nat) | Paragraph(text: string) | PageBreak

  const Title: string := "نتائج البحث في القوانين اليمنية"
  const NoResults: string := "لم يتم العثور على نتائج للكلمات المفتاحية المحددة."
  const LawLabel: string := "القانون: "
  const ArticleLabel: string := " - المادة: "

  /** The heading of one result: its law, then its article number. */
  function ResultHeading(r: SearchResult): string {
    LawLabel + r.law + ArticleLabel + r.num
  }

  /** A document being written: the elements added so far. */
  class WordDocument {
    var elements: seq<Element>

    constructor()
      ensures elements == []
    {
      elements := [];
    }

    method AddHeading(text: string, level: nat)
      modifies this
      ensures elements == old(elements) + [Heading(text, level)]
    {
      elements := elements + [Heading(text, level)];
    }

    method AddParagraph(text: string)
      modifies this
      ensures elements == old(elements) + [Paragraph(text)]
    {
      elements := elements + [Paragraph(text)];
    }

    method AddPageBreak()
      modifies this
      ensures elements == old(elements) + [PageBreak]
    {
      elements := elements + [PageBreak];
    }
  }

  /** The elements written for result `i`: its heading, its text, and a page break unless it is the last. */
  function ResultElements(results: seq<SearchResult>, i: nat): seq<Element>
    requires i < |results|
  {
    [Heading(ResultHeading(results[i]), 2), Paragraph(results[i].plain)]
      + (if i < |results| - 1 then [PageBreak] else [])
  }

  /** The elements written for the first `n` results. */
  function ResultsElements(results: seq<SearchResult>, n: nat): seq<Element>
    requires n <= |results|
  {
    if n == 0 then [] else ResultsElements(results, n - 1) + ResultElements(results, n - 1)
  }

  /** The elements of the exported document. */
  function Exported(results: seq<SearchResult>): seq<Element> {
    [Heading(Title, 1)] + (if results == [] then [Paragraph(NoResults)] else ResultsElements(results, |results|))
  }

  /** The export: the document is written element by element, as the results are enumerated. */
  method ExportResultsToWord(results: seq<SearchResult>) returns (elements: seq<Element>)
    ensures elements == Exported(results)
  {
    var document := new WordDocument();
    document.AddHeading(Title, 1);
    if results == [] {
      document.AddParagraph(NoResults);
    } else {
      for i := 0 to |results|
        invariant document.elements == [Heading(Title, 1)] + ResultsElements(results, i)
      {
        document.AddHeading(ResultHeading(results[i]), 2);
        document.AddParagraph(results[i].plain);
        if i < |results| - 1 {
          document.AddPageBreak();
        }
      }
    }
    elements := document.elements;
  }

  /**
   * Where each result stands among the elements written for the first `n`:
   * three elements per result, the last result without its page break.
   */
  lemma {:induction false} ResultsElementsAt(results: seq<SearchResult>, n: nat)
    requires n <= |results|
    ensures |ResultsElements(results, n)| == if n == |results| && n > 0 then 3 * n - 1 else 3 * n
    ensures forall k :: 0 <= k < n ==>
      && ResultsElements(results, n)[3 * k] == Heading(ResultHeading(results[k]), 2)
      && ResultsElements(results, n)[3 * k + 1] == Paragraph(results[k].plain)
    ensures forall k :: 0 <= k < n && k < |results| - 1 ==> ResultsElements(results, n)[3 * k + 2] == PageBreak
  {
    if n > 0 {
      ResultsElementsAt(results, n - 1);
      var before, es := ResultsElements(results, n - 1), ResultsElements(results, n);
      assert |before| == 3 * (n - 1);
      forall k | 0 <= k < n - 1
        ensures es[3 * k] == before[3 * k] && es[3 * k + 1] == before[3 * k + 1] && es[3 * k + 2] == before[3 * k + 2]
      {
      }
    }
  }

  /**
   * The shape of the exported document: the title heading first; with no
   * result, the no-results paragraph and nothing else; otherwise, for each
   * result in order, its heading (law and article) and its plain text, with a
   * page break between consecutive results and none after the last.
   */
  lemma ExportedShape(results: seq<SearchResult>)
    ensures Exported(results)[0] == Heading(Title, 1)
    ensures results == [] ==> Exported(results) == [Heading(Title, 1), Paragraph(NoResults)]
    ensures results != [] ==> |Exported(results)| == 3 * |results|
    ensures forall k :: 0 <= k < |results| ==>
      && Exported(results)[1 + 3 * k] == Heading(ResultHeading(results[k]), 2)
      && Exported(results)[2 + 3 * k] == Paragraph(results[k].plain)
    ensures forall k :: 0 <= k < |results| - 1 ==> Exported(results)[3 + 3 * k] == PageBreak
  {
    if results != [] {
      var n := |results|;
      var es := ResultsElements(results, n);
      ResultsElementsAt(results, n);
      forall k | 0 <= k < n
        ensures Exported(results)[1 + 3 * k] == es[3 * k]
        ensures Exported(results)[2 + 3 * k] == es[3 * k + 1]
      {
      }
      forall k | 0 <= k < n - 1
        ensures Exported(results)[3 + 3 * k] == es[3 * k + 2]
      {
      }
    }
  }

  lemma CountAppend(xs: seq<Element>, ys: seq<Element>, e: Element)
    ensures multiset(xs + ys)[e] == multiset(xs)[e] + multiset(ys)[e]
  {
    assert multiset(xs + ys) == multiset(xs) + multiset(ys);
  }

  /** The elements written for one result hold a page break unless it is the last result. */
  lemma BreaksInResult(results: seq<SearchResult>, i: nat)
    requires i < |results|
    ensures multiset(ResultElements(results, i))[PageBreak] == if i < |results| - 1 then 1 else 0
  {
    var two := [Heading(ResultHeading(results[i]), 2), Paragraph(results[i].plain)];
    var brk: seq<Element> := if i < |results| - 1 then [PageBreak] else [];
    assert multiset(two)[PageBreak] == 0;
    CountAppend(two, brk, PageBreak);
  }

  /** The number of page breaks among the elements written for the first `n` results. */
  lemma {:induction false} BreaksWritten(results: seq<SearchResult>, n: nat)
    requires n <= |results|
    ensures multiset(ResultsElements(results, n))[PageBreak] == if n == |results| && n > 0 then n - 1 else n
  {
    if n > 0 {
      BreaksWritten(results, n - 1);
      BreaksInResult(results, n - 1);
      CountAppend(ResultsElements(results, n - 1), ResultElements(results, n - 1), PageBreak);
    }
  }

  /** Results are separated by page breaks: one fewer than the results, and none when there is no result. */
  lemma PageBreaks(results: seq<SearchResult>)
    ensures multiset(Exported(results))[PageBreak] == if results == [] then 0 else |results| - 1
  {
    if results != [] {
      BreaksWritten(results, |results|);
    }
  }

  /** The texts of the paragraphs among the elements, in order. */
  function ParagraphTexts(es: seq<Element>): seq<string> {
    if es == [] then []
    else (if es[0].Paragraph? then [es[0].text] else []) + ParagraphTexts(es[1..])
  }

  lemma {:induction false} ParagraphTextsAppend(xs: seq<Element>, ys: seq<Element>)
    ensures ParagraphTexts(xs + ys) == ParagraphTexts(xs) + ParagraphTexts(ys)
    decreases |xs|
  {
    if xs == [] {
      assert xs + ys == ys;
    } else {
      ParagraphTextsAppend(xs[1..], ys);
      assert (xs + ys)[1..] == xs[1..] + ys;
    }
  }

  /** The plain texts of the results, in order. */
  function Plains(results: seq<SearchResult>): seq<string>
    decreases |results|
  {
    if results == [] then [] else Plains(results[..|results| - 1]) + [results[|results| - 1].plain]
  }

  lemma {:induction false} ResultsParagraphs(results: seq<SearchResult>, n: nat)
    requires n <= |results|
    ensures ParagraphTexts(ResultsElements(results, n)) == Plains(results[..n])
  {
    if n > 0 {
      ResultsParagraphs(results, n - 1);
      var r := results[n - 1];
      var piece := ResultElements(results, n - 1);
      ParagraphTextsAppend(ResultsElements(results, n - 1), piece);
      assert ParagraphTexts(piece) == [r.plain] by {
        assert piece[1..] == [Paragraph(r.plain)] + piece[2..];
        assert ParagraphTexts(piece[2..]) == [];
      }
      assert results[..n][..n - 1] == results[..n - 1];
    }
  }

  /**
   * The paragraphs of the exported document are the plain texts of the
   * results, each once and in order, or the no-results sentence alone.
   */
  lemma ExportedParagraphs(results: seq<SearchResult>)
    ensures ParagraphTexts(Exported(results)) == if results == [] then [NoResults] else Plains(results)
  {
    var tail := if results == [] then [Paragraph(NoResults)] else ResultsElements(results, |results|);
    ParagraphTextsAppend([Heading(Title, 1)], tail);
    if results != [] {
      ResultsParagraphs(results, |results|);
      assert results[..|results|] == results;
    }
  }
}
