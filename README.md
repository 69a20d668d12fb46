# Yemeni law search: a verified model of its search engine

The application searches the articles of Yemeni laws, kept as Word documents,
for keywords or for an article number, and shows the matching articles with the
keywords highlighted. This project models the engine behind the search form:

- `normalize_arabic_text`, the canonical form in which texts and keywords are
  compared (`normalizer.dfy`, module `ArabicNormalizer`);
- the parsing of the keyword field, the query and the decision whether an
  article is a result, with its loop over the keywords (`matcher.dfy`, `Matcher`);
- the segmentation of a document's paragraphs into articles at the markers
  `مادة (n)` (`segmenter.dfy`, `Segmenter`);
- the search loop over the documents and their paragraphs, which evaluates each
  article as soon as it is complete and collects the results (`search.dfy`, `Search`);
- both `highlight_keywords` functions: the whole-word one of the search tab,
  whose second pass reaches an undefined name, and the boundary-free one of
  the main script (`highlight.dfy`, `Highlight`);
- `normalize_arabic_numbers` (`digits.dfy`, `ArabicDigits`);
- `export_results_to_word`, as the ordered list of elements it adds to the
  document (`export.dfy`, `Export`).

Python's character classes, `str.strip`, `str.split` and `str.join` are in
`text.dfy` (module `Text`); `wrappers.dfy` holds `Option` and `Result`.

The search loop is a method over the paragraph sequence, with the same state as
the code: the current article number, the paragraphs gathered for it, and the
results. It is proved equal to a specification: the articles of each document
(`Segmenter.Segment`) are evaluated in order (`Search.Collect`). Separate lemmas
prove what that specification promises: nothing is lost, duplicated or
reordered; articles are numbered by their markers; and there is one result per
qualifying article. An exception raised by the highlighter ends the whole search
without results. It is modelled as a `Result` failure.

## Model

| member | source | states |
|---|---|---|
| ArabicNormalizer.CollapseRuns | streamlit_app_Version9.py:11 | the result is no longer than the input, has no character other than a newline three times in a row, and starts with the input's first character |
| ArabicNormalizer.CollapseRunsChars | streamlit_app_Version9.py:11 | collapsing runs keeps exactly the set of characters of the input |
| ArabicNormalizer.CollapseRunsUnchanged | streamlit_app_Version9.py:11 | a text without a run of three equal characters is left unchanged |
| ArabicNormalizer.StripDiacritics | streamlit_app_Version9.py:12 | no character in U+064B–U+0652 is left |
| ArabicNormalizer.StripDiacriticsChars | streamlit_app_Version9.py:12 | the characters left are exactly the input's characters that are not diacritics |
| ArabicNormalizer.StripDiacriticsUnchanged | streamlit_app_Version9.py:12 | a text without diacritics is left unchanged |
| ArabicNormalizer.FoldLetter | streamlit_app_Version9.py:13-17 | a folded character is never one of إ أ آ ى ة ؤ ئ; folding preserves being a word character and being a diacritic; other characters are unchanged |
| ArabicNormalizer.FoldVariants | streamlit_app_Version9.py:13-17 | the five substitutions together fold each character on its own, so the length is preserved |
| ArabicNormalizer.FoldVariantsUnchanged | streamlit_app_Version9.py:13-17 | a text without letter variants is left unchanged |
| ArabicNormalizer.KeepWordsAndSpaces | streamlit_app_Version9.py:18 | only word and whitespace characters are left |
| ArabicNormalizer.KeepWordsAndSpacesChars | streamlit_app_Version9.py:18 | the characters left are exactly the input's word and whitespace characters |
| ArabicNormalizer.KeepWordsAndSpacesUnchanged | streamlit_app_Version9.py:18 | a text of word and whitespace characters is left unchanged |
| ArabicNormalizer.CollapseSpaces | streamlit_app_Version9.py:19 | the only whitespace left is single spaces, never two adjacent; the result is empty exactly when the input is |
| ArabicNormalizer.CollapseSpacesChars | streamlit_app_Version9.py:19 | every non-whitespace character survives and only spaces are added |
| ArabicNormalizer.CollapseSpacesUnchanged | streamlit_app_Version9.py:19 | a text of word characters and single spaces is left unchanged |
| ArabicNormalizer.StripKeepsNonSpace | streamlit_app_Version9.py:20 | the final strip keeps every non-whitespace character |
| ArabicNormalizer.StripKeepsNoDoubleSpace | streamlit_app_Version9.py:20 | the final strip creates no double space |
| ArabicNormalizer.FoldedStage | streamlit_app_Version9.py:11-17 | after the first three steps there is no diacritic and no variant, and every word character of the input is present in folded form |
| ArabicNormalizer.SpacedStage | streamlit_app_Version9.py:18-19 | steps 4 and 5 leave spaces and word characters of their input, and every word character survives |
| ArabicNormalizer.StripStage | streamlit_app_Version9.py:20 | stripping the output of step 5 keeps its shape and all its word characters |
| ArabicNormalizer.NormalizeArabicText | streamlit_app_Version9.py:10-20 | the result is no longer than the input, empty for an empty input, and canonical: word characters and single spaces only, no space at either end, no diacritic, no letter variant |
| ArabicNormalizer.NormalizeKeepsWords | streamlit_app_Version9.py:10-20 | every word character of the input appears, folded, in the result |
| ArabicNormalizer.NormalizeUnchanged | streamlit_app_Version9.py:10-20 | a canonical text without long runs is its own normal form |
| ArabicNormalizer.NormalizeIdempotentWithoutLongRuns | streamlit_app_Version9.py:10-20 | normalising twice equals normalising once when the first result has no run of three |
| ArabicNormalizer.NotIdempotent | streamlit_app_Version9.py:11-13 | normalisation is not idempotent: اأا normalises to ااا, which normalises to ا |
| ArabicDigits.TranslateDigit | streamlit_app.py:105 | each of ٠–٩ maps to the ASCII digit of the same value; every other character is unchanged; no Arabic-Indic digit comes out |
| ArabicDigits.NormalizeArabicNumbers | streamlit_app.py:103-106 | the length is preserved and each character is translated on its own |
| ArabicDigits.NoArabicIndicDigitLeft | streamlit_app.py:105-106 | the result holds no Arabic-Indic digit |
| ArabicDigits.IdentityWithoutArabicIndicDigits | streamlit_app.py:105-106 | a string without Arabic-Indic digits is left unchanged |
| ArabicDigits.Idempotent | streamlit_app.py:105-106 | translating twice is translating once |
| ArabicDigits.TranslatesAllTen | streamlit_app.py:105 | ٠١٢٣٤٥٦٧٨٩ becomes 0123456789 |
| Text.Strip | streamlit_app_Version9.py:115 | the stripped text is no longer than the input and has no whitespace at either end |
| Text.StripShape | streamlit_app_Version9.py:115 | the stripped text is the input with its leading and trailing whitespace removed, and nothing else |
| Text.StripUnchanged | streamlit_app_Version9.py:115 | a text without whitespace at its ends is its own strip |
| Text.Split | streamlit_app_Version9.py:105 | splitting gives at least one piece, and no piece holds the separator |
| Text.JoinSplit | streamlit_app_Version9.py:105 | joining the pieces of a split gives back the string |
| Text.SplitJoin | streamlit_app_Version9.py:105 | splitting joined pieces that hold no separator gives back the pieces |
| Text.Kept | streamlit_app_Version9.py:105 | the kept strings are stripped and non-empty |
| Matcher.ParseKeywords | streamlit_app_Version9.py:105 | an empty field gives no keyword; each keyword is non-empty, holds no comma and has no whitespace at its ends |
| Matcher.ParseJoin | streamlit_app_Version9.py:105 | keywords written comma-separated into the field are read back exactly |
| Matcher.Prepare | streamlit_app_Version9.py:105-108 | the keywords are those parsed from the keyword field, each with its normal form; the article number is the stripped number field, searched for exactly when it is non-empty; the exact-match box is passed on |
| Matcher.MatchArticle | streamlit_app_Version9.py:122-138 | the loop's verdict is: the number equals the one asked for, or some non-empty normalised keyword is found in the normalised text, as a whole word when exact |
| Matcher.ExactImpliesFuzzy | streamlit_app_Version9.py:130-138 | every exact hit is also a fuzzy hit |
| Matcher.EmptyQueryMatchesNothing | streamlit_app_Version9.py:124-126 | with a keyword field that yields no keyword (empty, blank or only commas) and a blank number field, no article is a result |
| Matcher.BlankFields | streamlit_app_Version9.py:105-108 | a keyword field that yields no keyword and a blank number field give the same query as two empty fields |
| Matcher.NumberRule | streamlit_app_Version9.py:124-126 | without keywords, an article is a result exactly when the number field is not blank and the article's number equals the stripped field, character for character |
| Matcher.DigitsAreNotConverted | streamlit_app_Version9.py:108-124 | the number field ٥ selects article ٥ and not article 5: its digits are not converted |
| Matcher.WholeWordInCanonical | streamlit_app_Version9.py:131-132 | in a normalised text a whole-word occurrence is exactly one bounded by spaces or the ends of the text |
| Matcher.ExactSkipsDerivedWords | streamlit_app_Version9.py:130-138 | an exact search for ظلم does not match تظلم; a fuzzy search does |
| Highlight.ScanErase | streamlit_app_Version9.py:26-27 | removing the marks from one substitution pass gives back the text |
| Highlight.ScanPieces | streamlit_app_Version9.py:26-27 | a pass marks exactly the leftmost non-overlapping matches, keeps the matched text verbatim, and leaves no match unmarked |
| Highlight.MarkPassNoMatch | streamlit_app_Version9.py:26-27 | a pass over a text where the keyword never matches leaves the text unchanged |
| Highlight.FirstNonEmpty | streamlit_app_Version9.py:30-31 | finds the first non-empty normalised keyword, or reports that there is none |
| Highlight.HighlightKeywords | streamlit_app_Version9.py:23-38 | runs the whole-word passes over the keywords, then the second pass, which fails at its first non-empty normalised keyword |
| Highlight.HighlightFailsIff | streamlit_app_Version9.py:28-33 | the highlighter fails exactly for an exact-match search with a non-empty normalised keyword; with no more normalised keywords than keywords, the failure is the undefined name |
| Highlight.FuzzyOnlyFirstPass | streamlit_app_Version9.py:24-28 | without exact matching only the whole-word passes run, and they succeed |
| Highlight.WholeWordPassesNoMatch | streamlit_app_Version9.py:24-27 | keywords that are empty or never match as whole words leave the text unchanged, as does an empty keyword list |
| Highlight.InsideWordsWholeWord | streamlit_app_Version9.py:26-27 | the whole-word pass does not mark ظلم inside تظلم |
| Highlight.HighlightKeywordsAnywhere | streamlit_app.py:80-83 | the loop gives one boundary-free, case-insensitive pass per keyword, in order |
| Highlight.AnywherePassesNoMatch | streamlit_app.py:80-83 | keywords with no case-insensitive occurrence leave the text unchanged, as does an empty keyword list |
| Highlight.InsideWordsAnywhere | streamlit_app.py:82 | an occurrence inside a larger word is marked |
| Highlight.ScanIgnoresCase | streamlit_app.py:82 | for every text and keyword, a stretch that differs from the keyword only in case is matched and marked in the text's own characters |
| Text.Lower | streamlit_app.py:82 | case folding maps each upper-case letter of ASCII and Latin-1 to its lower-case partner, never to another upper-case letter, and leaves every other character as it is |
| Highlight.KeepsOriginalCase | streamlit_app.py:82 | for every text that is a keyword up to case, the pass wraps the whole text in the tags, keeping the text's own case |
| Highlight.ScanExample | streamlit_app.py:82 | worked example: the pass for b over ABC keeps A and C and marks B |
| Highlight.MarkPassExample | streamlit_app.py:82 | worked example: the pass for b turns `ABC` into `A<mark>B</mark>C` |
| Highlight.EmptyKeywordScan | streamlit_app.py:81-82 | an empty keyword is matched at every position from the current one to the end |
| Highlight.EmptyKeywordMarksEverywhere | streamlit_app.py:81-82 | an empty keyword inserts an empty mark before every character and at the end |
| Segmenter.SkipSpaces | streamlit_app_Version9.py:118 | skips to the first non-whitespace character from the given position |
| Segmenter.SkipDigits | streamlit_app_Version9.py:118 | skips to the first non-digit from the given position |
| Segmenter.MarkerNumber | streamlit_app_Version9.py:118 | there is a marker exactly when the paragraph starts with the article word and a digit stands where the number must start; the number is then the maximal run of digits from there |
| Segmenter.DigitsStart | streamlit_app_Version9.py:118 | the number starts after the article word and the whitespace, at most one opening parenthesis and whitespace that follow it; the parenthesis is taken whenever it is there, and the number's first character is not whitespace |
| Segmenter.MarkerWithoutParenthesis | streamlit_app_Version9.py:118 | for the article word, whitespace, then digits, the number is exactly those digits |
| Segmenter.MarkerWithParenthesis | streamlit_app_Version9.py:118 | for the article word, whitespace, an opening parenthesis, whitespace, then digits, the number is exactly those digits |
| Segmenter.UnknownIsNoMarkerNumber | streamlit_app_Version9.py:112-118 | no marker carries the unknown number |
| Segmenter.SegmentFromKeepsEverything | streamlit_app_Version9.py:114-150 | from any state, the emitted articles hold the gathered paragraphs followed by the kept paragraphs |
| Segmenter.SegmentKeepsEverything | streamlit_app_Version9.py:114-150 | segmentation loses, duplicates and reorders nothing: the articles' paragraphs, in order, are the non-empty stripped paragraphs |
| Segmenter.SegmentFromNumbering | streamlit_app_Version9.py:118-150 | from a valid state, every article is non-empty, well numbered and of the law, and every article after the first opens with its marker |
| Segmenter.SegmentNumbering | streamlit_app_Version9.py:112-149 | every article is non-empty and numbered by its opening marker; only a first article without any marker is numbered unknown |
| Segmenter.SegmentFromWithoutMarkers | streamlit_app_Version9.py:114-150 | without markers, everything gathered and kept becomes one article under the current number |
| Segmenter.SegmentWithoutMarkers | streamlit_app_Version9.py:112-150 | a document with no marker yields at most one article, numbered unknown |
| Segmenter.FeedThenSegment | streamlit_app_Version9.py:114-149 | reading one paragraph moves it from the rest of the document into the state without changing the articles emitted overall |
| Segmenter.FeedAllThenSegment | streamlit_app_Version9.py:114-149 | the state after reading a prefix, continued over the rest, emits the articles of the whole document |
| Segmenter.SegmentByFeeding | streamlit_app_Version9.py:114-150 | reading the whole document and flushing at the end gives its articles |
| Segmenter.StepMarker | streamlit_app_Version9.py:118-149 | a marker paragraph flushes the open article and opens its own |
| Segmenter.StepPlain | streamlit_app_Version9.py:149 | any other paragraph joins the open article |
| Segmenter.LastParagraph | streamlit_app_Version9.py:149-150 | the end of the document flushes the open article |
| Segmenter.SegmentTwoArticles | streamlit_app_Version9.py:112-150 | marker, text, marker, text gives two articles, each opened by its marker and numbered by it |
| Segmenter.SegmentExample | streamlit_app_Version9.py:112-150 | مادة (1), Text A, مادة (2), Text B gives articles 1 and 2 |
| Segmenter.SegmentPreamble | streamlit_app_Version9.py:112-150 | a document of one ordinary paragraph is one article numbered unknown |
| Segmenter.MarkerParagraph | streamlit_app_Version9.py:118 | مادة (d) is a stripped marker numbered d |
| Segmenter.PlainParagraph | streamlit_app_Version9.py:115-118 | a stripped paragraph that does not start with the article word is not a marker |
| Search.LawName | streamlit_app_Version9.py:111 | the law's name is no longer than its file name |
| Search.LawNameOfFile | streamlit_app_Version9.py:111 | the file of a law whose name has no dot gives back that name |
| Search.EvaluateArticle | streamlit_app_Version9.py:121-146 | the evaluation of one complete article is its outcome: nothing, a result, or the highlighter's error |
| Search.OutcomeOf | streamlit_app_Version9.py:122-146 | an article gives nothing exactly when it does not qualify; its result has its law, its number, the joined text as plain, and the highlighted text (the plain text when there are no keywords); it fails exactly when it qualifies and the highlighter fails, with the undefined name |
| Search.AddArticle | streamlit_app_Version9.py:120-147 | flushing an article adds its outcome to the results gathered so far |
| Search.CollectStep | streamlit_app_Version9.py:139-146 | collecting one more article is one step of the fold over outcomes |
| Search.GatherSucceeds | streamlit_app_Version9.py:139-146 | gathering succeeds exactly when every outcome does, and then gives the produced results in order; a failure is some article's error |
| Search.CollectAppend | streamlit_app_Version9.py:109 | collecting two stretches of articles is collecting each and joining the results |
| Search.CollectFailureStays | streamlit_app_Version9.py:140 | after an error, later articles do not change the outcome |
| Search.ReadingFailureStays | streamlit_app_Version9.py:140 | an error among the articles emitted so far is the outcome of the whole document |
| Search.SearchDocument | streamlit_app_Version9.py:112-176 | the paragraph loop with its state gives the collected outcomes of the document's articles, in order |
| Search.SearchDocuments | streamlit_app_Version9.py:109-176 | the documents are searched in order, the results of each following those of the ones before |
| Search.SearchLaws | streamlit_app_Version9.py:103-176 | the search builds the query from the three fields and collects over all the articles of the documents |
| Search.PrefixArticles | streamlit_app_Version9.py:109 | the articles of the first documents are a prefix of all the articles |
| Search.ProducedAreSelected | streamlit_app_Version9.py:139-176 | when no outcome fails, the results stand one by one, in order, for the qualifying articles |
| Search.ResultsAreSelectedArticles | streamlit_app_Version9.py:139-176 | a successful search gives exactly one result per qualifying article, in document order and then article order |
| Search.CollectFailsIff | streamlit_app_Version9.py:140-170 | a search fails exactly when the highlighter fails for the query and some article qualifies; the error is the undefined name |
| Search.EmptySearchFindsNothing | streamlit_app_Version9.py:105-126 | a search with no keyword and a blank number field finds nothing in any documents and does not fail |
| Search.EmptyNoResults | streamlit_app_Version9.py:124-126 | with no keyword and a blank number field, any articles give no result and no error |
| Export.WordDocument.constructor | streamlit_app.py:86 | a new document has no element |
| Export.WordDocument.AddHeading | streamlit_app.py:87 | adds a heading at the end and changes nothing else |
| Export.WordDocument.AddParagraph | streamlit_app.py:90 | adds a paragraph at the end and changes nothing else |
| Export.WordDocument.AddPageBreak | streamlit_app.py:96 | adds a page break at the end and changes nothing else |
| Export.ExportResultsToWord | streamlit_app.py:85-96 | the elements written by the loop are the exported document |
| Export.ResultsElementsAt | streamlit_app.py:92-96 | each result has three elements (heading, plain text, page break) in order, and the last result has no page break |
| Export.ExportedShape | streamlit_app.py:86-96 | the level-1 title comes first; with no results it is followed only by the no-results paragraph; otherwise there are 3n elements, and each result has a level-2 heading with its law and number, then a paragraph with its plain text, then a page break unless it is the last |
| Export.BreaksInResult | streamlit_app.py:95-96 | a result is followed by a page break exactly when it is not the last |
| Export.BreaksWritten | streamlit_app.py:92-96 | the number of page breaks written so far |
| Export.PageBreaks | streamlit_app.py:95-96 | the document holds n−1 page breaks for n ≥ 1 results and none otherwise |
| Export.ResultsParagraphs | streamlit_app.py:92-94 | the paragraphs written for the results are their plain texts, in order |
| Export.ExportedParagraphs | streamlit_app.py:89-94 | the document's paragraphs are the results' plain texts, each once and in order (never the highlighted text), or the no-results sentence alone |

## Left out

- The Streamlit user interface: tabs, styles, expanders, messages, the font-size buttons and the full-law tab. They only display results.
- Reading the laws directory, choosing between all files and one file, and opening the Word documents. The documents are a parameter of `Search.SearchDocuments`: a file name and its paragraph texts.
- Writing the Word file: saving the document to a byte buffer is done by a foreign library. The export yields the elements added to the document.
- Licensing and the trial period: device identifiers, flag files and the wall clock.
- Python's regular-expression engine in general. `\w`, `\d` and `\s` are fixed character predicates (`Text.IsWord`, `Text.IsDigit`, `Text.IsSpace`). `\w` and `\d` agree with Python's classes on ASCII, Latin-1 and the Arabic block U+0600–U+06FF, and hold for no character outside those ranges: a letter of another script is treated as a non-word character.
- Text.Lower: `IGNORECASE` is modelled for the case pairs within ASCII and within Latin-1 (A–Z, À–Þ except ×). Pairs that reach beyond Latin-1 are compared case-sensitively: K and the Kelvin sign, S and ſ, I and İ, µ and Greek mu, Å and the Ångström sign, ß and ẞ, ÿ and Ÿ, and all cased letters outside Latin-1. Arabic letters have no case.
- Highlight.HighlightKeywords: the second pass is modelled up to its failure. It computes a normalised text that it never uses, which the model does not compute. Its body after the undefined name can never run.
- Search.SearchDocument: the code writes the flush of a complete article twice, once at a marker and once at the end of a document. The model writes it once, as `Search.AddArticle`, and calls it from both places.
- ArabicNormalizer.NormalizeArabicText: idempotence is not claimed, because the code does not have it (`ArabicNormalizer.NotIdempotent`). It is proved only for results without a run of three equal characters.
- `run_main_app` calling itself and the call of an undefined `main()` at the end of the main script. This is control flow of the user interface.

## Behaviour of the code worth knowing

- The article number field is compared with the article number as written (streamlit_app_Version9.py:108 and :124). Neither side has its Arabic-Indic digits converted, so ٥ does not match 5 (`Matcher.DigitsAreNotConverted`).
- Exact matching searches for whole words of the normalised text with normalised keywords, and it is case-sensitive (streamlit_app_Version9.py:131-132). Only highlighting ignores case.
- A document without any marker gives one article numbered unknown if it has text, and none if it is empty (streamlit_app_Version9.py:113-150).
- The second highlighting pass runs only for exact-match searches (streamlit_app_Version9.py:28). It skips keywords whose normal form is empty (:31) and raises `NameError` at the first keyword whose normal form is non-empty (:33), where it calls the undefined `normalized_arabic_text`. An exact-match search therefore fails as soon as an article qualifies while some keyword normalises to a non-empty text.
- There is no per-document error handling. An error raised while highlighting any article ends the whole search, and no results are shown.
