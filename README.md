# Abstract extraction heuristics, modelled in Dafny

This project models the core of a small pipeline that reads scientific
articles as plain text, next to the structured output of the ScienceParse
parser. The pipeline decides whether a document or a paragraph is useful, and
it finds the abstract with simple heuristics. The model covers:

- `utils.py`: the all-must-pass test runner `run_tests`; the strict
  comparisons `smaller`, `larger` and `between`; the language, medRxiv and
  average-token-length scores; and `trim_filename`.
- `document.py`, the document parser:
  - a `Document` cuts its text into `Paragraph`s on blank lines;
  - every paragraph and the document are scored;
  - the paragraphs are linked to their neighbours and parsed in order;
  - a paragraph whose first marker line (a line that lowercases to
    `abstract`) is followed by text becomes an abstract;
  - the last such paragraph is left as the document's abstract;
  - usefulness is the verdict of the fixed test tables `DOCUMENT_TESTS` and
    `PARAGRAPH_TESTS`.

  `JsonDocument` wraps the parser's record (`get_abstract`, `get_sections`).
- `parse.py`, the earlier extractor:
  - a marker line alone makes a paragraph an abstract;
  - its language score has no guard for a text without tokens;
  - `content_as_html` inserts a tag before each abstract's first 25
    characters, at the position `str.find` reports, and then breaks the lines
    for HTML.

Modules:

- `Wrappers` holds `Option`.
- `Strings` writes out the Python string operations the code relies on:
  `find`, `split(sep)`, `join`, `split()`, `strip`, `lower`, `endswith`,
  negative slice bounds, `re.finditer` on a literal, and
  `replace('\n', '<br>\n')`. Whitespace is every ASCII character
  `str.isspace` accepts, the separators U+001C to U+001F included; case is
  the ASCII one.
- `Tally` defines sums over a `collections.Counter`, modelled as a
  `multiset<string>`. It proves that the sum does not depend on the order in
  which the items are visited.
- `Utils`, `Markers` (the marker-line search shared by both extractors),
  `ScienceParse`, `Docs` (`document.py`) and `Parse` (`parse.py`).

Both documents and paragraphs are classes whose fields the constructors and
methods update in place. A score record is a value that its owner reassigns.
A paragraph's `previous` and `next` are the indices of its neighbours in the
document's paragraph sequence. The document's abstract is a reference to one
of its paragraphs, as in the code. Each paragraph records two ghost values
when it is built:

- whether it qualifies as an abstract (`verdict` in `Docs`, `marked` in
  `Parse`);
- its position.

Each paragraph's `Valid()` ties the recorded verdict to its text, and the
document's `Valid()` ties the position to the paragraph's place. The position
also shows that distinct indices hold distinct paragraphs.

The paragraphs are parsed in order, and every qualifying paragraph
overwrites `document.abstract`, so the last one wins
(`Docs.AbstractIsLastQualifying`, `Docs.LastMatchWins`; in `parse.py`,
`Parse.AbstractIsLastMarked`). The thresholds are the ones in the two test
tables `DOCUMENT_TESTS` and `PARAGRAPH_TESTS`
(`Docs.DocumentTestsMeaning`, `Docs.ParagraphTestsMeaning`).

## Model

| member | source | states |
|---|---|---|
| Utils.Smaller | code/utils.py:66-67 | `x < y`: true exactly when `larger(y, x)`, and never for equal values |
| Utils.Larger | code/utils.py:70-71 | `x > y`: never for equal values, and never together with the reverse comparison; `Utils.ComparisonsAreStrict` relates all three |
| Utils.Between | code/utils.py:74-76 | true exactly when larger than the low bound and smaller than the high one; never at a bound, and never when the bounds leave no room |
| Utils.ComparisonsAreStrict | code/utils.py:66-76 | `smaller`, `larger` and `between` are strict: a value equal to the threshold or to a bound fails; `between` is larger than the low bound and smaller than the high one |
| Utils.RunTests | code/utils.py:17-27 | the result is true exactly when every score that has a test passes it; scores without a test are ignored, so a record with no tested score passes |
| Utils.LanguageScore | code/utils.py:30-41 | the loop over the counter's items computes the share of token occurrences that are frequent words; it lies in [0, 1] and is 0 without tokens |
| Utils.ShareBounds | code/utils.py:30-41 | the frequent-word share is a proportion between 0 and 1 |
| Utils.ShareExtremes | code/utils.py:30-41 | only frequent words give 1; no frequent word gives 0 |
| Utils.MedrxivScore | code/utils.py:44-52 | matches of `medRxiv` per paragraph: 0 for a zero count (the `ZeroDivisionError` branch); for a positive count it lies between 0 and the number of matches; `Utils.MedrxivScoreCounts` ties the matches to `split` |
| Utils.MedrxivScoreCounts | code/utils.py:44-52 | the score is the number of cuts `split('medRxiv')` makes (the matches `re.finditer` yields) over the paragraph count; 0 for zero paragraphs; never negative for a positive count |
| Utils.AverageTokenLength | code/utils.py:55-63 | the loop computes the occurrence-weighted mean token length, 0 when the token count is 0 |
| Utils.MeanLengthBounds | code/utils.py:55-63 | when every token's length lies between two bounds, so does the average |
| Utils.TrimFilename | code/utils.py:101-107 | a name that does not end with the extension is unchanged; otherwise the trimmed name plus the extension is the name; with the default empty extension the result is empty (`name[:-0]`) |
| Strings.Find | code/parse.py:118 | `find` gives the first index where the pattern occurs, or -1 when it does not occur |
| Strings.SplitJoin | code/document.py:109 | joining the pieces of `split(sep)` with `sep` gives the text back |
| Strings.SplitPiecesLackSeparator | code/document.py:109 | no piece of a split contains the separator |
| Strings.SplitPieceOccurs | code/document.py:109 | every piece of a split occurs in the text |
| Strings.Words | code/document.py:111 | `split()` yields non-empty tokens without whitespace |
| Strings.StripTrims | code/document.py:221 | `strip` keeps a slice that neither starts nor ends with whitespace and cuts off only whitespace |
| Strings.CountMatchesSplit | code/utils.py:48 | the matches a left-to-right scan for a literal counts are exactly the cuts `split` makes |
| Strings.BreakLinesAppend | code/parse.py:123 | replacing newlines with `<br>` and a newline works piece by piece |
| Strings.BreakLinesWithoutNewline | code/parse.py:123 | a text without newlines is left as it is |
| Tally.WeightedPick | code/utils.py:35-37 | a sum over a counter's items may start from any token: the order of `items()` does not change the total |
| Tally.WeightedUniform | code/utils.py:35 | summing the counts alone (`sum(tokens.values())`) gives the number of occurrences |
| Tally.WeightedMonotone | code/utils.py:36-37 | counting only some tokens never gives more than counting all of them |
| Tally.DistinctAtMostSize | code/document.py:257-259 | a counter has at most as many distinct tokens as occurrences |
| Markers.MarkerLength | code/document.py:269 | a marker line is exactly eight characters |
| Markers.FirstMarker | code/document.py:268-271 | the index found is the first marker line: every earlier line is not a marker |
| Markers.TextAfterMarker | code/document.py:263-271 | no marker, or a marker on the last line, gives the empty text |
| Markers.TextAfterMarkerIsTail | code/document.py:263-271 | the text after the marker is a tail of the paragraph, right after the marker line and its newline |
| Markers.TextNeedsMarker | code/document.py:263-271 | non-empty text after a marker implies a marker line |
| Markers.MarkedTextNotEmpty | code/document.py:240-241 | a paragraph with a marker line is never empty, so it is truthy |
| ScienceParse.GetAbstract | code/document.py:330-334 | `abstractText` when the key is present; None when it is missing or null |
| ScienceParse.GetSections | code/document.py:336-338 | the section list, or the empty list when it is null |
| ScienceParse.Load | code/document.py:315-321 | the wrapper holds the abstract, the sections and one heading per section, in order |
| ScienceParse.UsableAbstractOfRecord | code/document.py:153-154 | the parser's abstract counts exactly when `abstractText` holds a non-empty string |
| Docs.DocumentTestsMeaning | code/document.py:16-19 | a document passes exactly when size > 1000, language > 0.2 and medRxiv < 0.1 |
| Docs.ParagraphTestsMeaning | code/document.py:21-25 | a paragraph passes exactly when language > 0.2, average line length > 10, average token length > 4 and singletons per token < 0.1; size has no test |
| Docs.Paragraph.constructor | code/document.py:219-231 | the content is the stripped text; no neighbours; not an abstract; the scores are computed |
| Docs.Paragraph.SetScores | code/document.py:243-248 | every score field holds what its scoring function computes |
| Docs.Paragraph.AverageLineLength | code/document.py:250-251 | there is always a line, so the division is defined; the average lies between 0 and the length, and is 0 for an empty paragraph |
| Docs.Paragraph.AverageTokenLength | code/document.py:253-254 | the occurrence-weighted mean token length; at least 1 when there are tokens |
| Docs.Paragraph.SingletonsPerToken | code/document.py:256-261 | distinct one-character tokens over occurrences, between 0 and 1, and 0 without tokens |
| Docs.Paragraph.AbstractContent | code/document.py:263-271 | empty without a marker; otherwise a tail of the content, preceded by the lines up to the first marker and a newline |
| Docs.Paragraph.Parse | code/document.py:273-279 | only the first marker line is looked at: the paragraph becomes an abstract, and the document's abstract, exactly when non-empty text follows it |
| Docs.Paragraph.IsUseful | code/document.py:281-284 | an abstract is useful; any other paragraph is useful exactly when it passes the four paragraph tests |
| Docs.LastQualifying | code/document.py:143-145 | the index of the last qualifying paragraph among the first n; no later one qualifies |
| Docs.Document.constructor | code/document.py:103-121 | the paragraphs are the stripped blank-line pieces, linked in order and scanned; the abstract is the last qualifying paragraph; size, language and medRxiv scores as computed |
| Docs.Document.MakeParagraphs | code/document.py:109 | one fresh paragraph per blank-line piece, in order, unlinked and unparsed, with the paragraph count |
| Docs.Document.SetScores | code/document.py:132-135 | size is the length, language the frequent-word share, medRxiv the match rate per paragraph |
| Docs.Document.LinkParagraphs | code/document.py:137-141 | every paragraph but the last gets the next index and every one but the first the previous index; the first keeps its previous and the last its next |
| Docs.Document.ParseParagraphs | code/document.py:143-145 | exactly the qualifying paragraphs become abstracts, and the document's abstract ends as the last of them |
| Docs.Document.AbstractContent | code/document.py:150-151 | the abstract paragraph's text after its marker when the paragraph is set and non-empty (its truth value is its length), None otherwise; the text is a tail of the paragraph; `Docs.AbstractIsLastQualifying` says which paragraph it is |
| Docs.Document.HasAbstract | code/document.py:156-157 | true exactly when the abstract paragraph is set and non-empty; `Docs.AbstractIsLastQualifying` says when that happens after the scan |
| Docs.Document.AbstractContentScpa | code/document.py:153-154 | the parser's abstract when present and not empty, None otherwise |
| Docs.Document.HasAbstractScpa | code/document.py:159-160 | true exactly when the record's `abstractText` holds a non-empty string |
| Docs.Document.IsUseful | code/document.py:162-164 | true exactly when size > 1000, language > 0.2 and medRxiv < 0.1 |
| Docs.AbstractIsLastQualifying | code/document.py:156-157 | after the scan, the document has an abstract exactly when some paragraph qualifies; its text is the non-empty text after the marker of the last qualifying paragraph |
| Docs.LastMatchWins | code/document.py:278 | of two qualifying paragraphs, the earlier is never the document's abstract |
| Parse.Paragraph.constructor | code/parse.py:129-135 | the content is the stripped text; no neighbours; not an abstract |
| Parse.Paragraph.AbstractContent | code/parse.py:147-152 | empty unless the paragraph is an abstract with a marker; otherwise a tail of the content after the first marker line |
| Parse.Paragraph.Parse | code/parse.py:154-163 | the first-line check and the loop together make the paragraph an abstract, and the document's abstract, exactly when some line is a marker |
| Parse.LastMarked | code/parse.py:67-69 | the index of the last marked paragraph among the first n; no later one is marked |
| Parse.Mark | code/parse.py:117-122 | the tag goes right before the first occurrence of the first 25 characters of the abstract; when they do not occur it goes before the last character; an empty prefix puts it first |
| Parse.MarkUndone | code/parse.py:119 | cutting the tag back out of the tagged text gives the text back |
| Parse.Document.constructor | code/parse.py:25-38 | needs a token; the paragraphs are the stripped blank-line pieces, linked and scanned; the abstract is the last marked paragraph; the language score as computed |
| Parse.Document.MakeParagraphs | code/parse.py:32 | one fresh paragraph per blank-line piece, in order, unlinked and unparsed |
| Parse.Document.SetLanguageScore | code/parse.py:49-59 | the loop over the counter's items computes the frequent-word share, which lies in [0, 1] |
| Parse.Document.Link | code/parse.py:61-65 | every paragraph but the last gets the next index and every one but the first the previous index |
| Parse.Document.ParseParagraphs | code/parse.py:67-69 | exactly the marked paragraphs become abstracts, and the document's abstract ends as the last of them |
| Parse.Document.AbstractContent | code/parse.py:77-78 | the abstract paragraph's text after its marker when the paragraph is set and non-empty, None otherwise; the text is a tail of the paragraph, empty unless the paragraph is flagged; `Parse.AbstractIsLastMarked` says which paragraph it is |
| Parse.Document.HasAbstract | code/parse.py:83-84 | true exactly when the abstract paragraph is set and non-empty, even when no text follows its marker (`Parse.LoneMarker`) |
| Parse.Document.ContentAsHtml | code/parse.py:113-124 | the HTML is the tagged text with its lines broken; without either abstract it is the content with its lines broken; each tag adds exactly its own length |
| Parse.AbstractIsLastMarked | code/parse.py:77-84 | after the scan, the document has an abstract exactly when some paragraph has a marker line; its text, possibly empty, is what follows the marker of the last marked paragraph |
| Parse.HeuristicTagFound | code/parse.py:117-119 | the heuristic abstract's first 25 characters always occur in the text, so its tag is never put before the last character by accident |
| Parse.RulesCompared | code/parse.py:154-163 | text after a marker (the document parser's rule) implies a marker (this rule); the two rules differ exactly when the first marker is the paragraph's last line |
| Parse.LoneMarker | code/parse.py:147-152 | a paragraph that is only the line `Abstract` has a marker but no text after it |

## Left out

- Reading files is not modelled. This covers the text and parser files, `json.load`, the `Documents` collection, `collect_documents` and the command line. A document is built from its text and its already loaded parser record.
- HTML and text output is not modelled: `write_html*`, `write_characteristics*`, `print_abstracts`, `print_output`, `pp`, `write_scores`, `td` and the colour constants. `content_as_html` is modelled, but only as a string rewrite.
- `timestamp`, `basename`, `strip_extensions`, `__str__`, `class_name` and `short_name` are not modelled. They are clocks, file-name helpers or formatting, and no decision depends on them.
- `shrink.py`, `select.py`, `check.py` and `config.py` are not part of this model.
- The frequent-word list is a set given to the document, not loaded from the word-frequency table.
- Floating-point numbers are modelled as exact reals, so rounding is not modelled.
- Whitespace is the ASCII whitespace `str.isspace` accepts (U+001C to U+001F included) and lowercasing is the ASCII one; non-ASCII whitespace such as U+0085 or U+00A0, and Unicode case folding, are not modelled.
- A parser record without a `sections` key raises `KeyError` in the code; the model always has a `sections` member, which may be null.
- Score records are values that their owner reassigns, not shared mutable objects. A paragraph's neighbours are indices, not references.
- Parse.Document.constructor: requires a text with at least one token. For a text without tokens the code's `set_language_score` raises `ZeroDivisionError`, which is not modelled.
- Strings.Words: states only that every token is non-empty and free of whitespace, not that the tokens are the maximal runs of non-whitespace in order; the definition computes the maximal runs.
