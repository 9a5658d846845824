/**
 * The document parser's core: a document is cut into paragraphs on blank
 * lines; every paragraph and the document are scored; the paragraphs are
 * linked to their neighbours and scanned, in order, for an abstract marker
 * followed by text. Every paragraph that qualifies becomes the document's
 * abstract in turn, so the last one wins. Usefulness is the all-must-pass
 * verdict of a fixed test table, which an abstract paragraph bypasses.
 *
 * Neighbours are kept as indices into the document's paragraph sequence;
 * the document's abstract is a reference to one of its paragraphs. Reading
 * the text and parser files is not modelled: a document is built from its
 * text and its parsed parser record, and the frequent-word list is a set
 * given at construction.
 */
module Docs {
  import opened Wrappers
  import opened Strings
  import opened Tally
  import opened Utils
  import opened Markers
  import opened ScienceParse

  /** `DOCUMENT_TESTS`. */
  const DocumentTests: map<string, Test> := map[
    "size" := LargerThan(1000.0),
    "language" := LargerThan(0.2),
    "medrxiv" := SmallerThan(0.1)]

  /** `PARAGRAPH_TESTS`. */
  const ParagraphTests: map<string, Test> := map[
    "language" := LargerThan(0.2),
    "average_line_length" := LargerThan(10.0),
    "average_token_length" := LargerThan(4.0),
    "singletons_per_token" := SmallerThan(0.1)]

  /** The document table: size above 1000, language above 0.2, medRxiv below 0.1. */
  lemma DocumentTestsMeaning(size: real, language: real, medrxiv: real)
    ensures AllPass(DocumentTests, [("size", size), ("language", language), ("medrxiv", medrxiv)])
      <==> size > 1000.0 && language > 0.2 && medrxiv < 0.1
  {
    var scores := [("size", size), ("language", language), ("medrxiv", medrxiv)];
    if AllPass(DocumentTests, scores) {
      assert scores[0].0 in DocumentTests && scores[1].0 in DocumentTests && scores[2].0 in DocumentTests;
    }
  }

  /**
   * The paragraph table: language above 0.2, average line length above 10,
   * average token length above 4, singletons per token below 0.1; the size
   * is a score without a test.
   */
  lemma ParagraphTestsMeaning(size: real, language: real, lineLength: real, tokenLength: real, singletons: real)
    ensures AllPass(ParagraphTests, [("size", size), ("language", language), ("average_line_length", lineLength),
                                     ("average_token_length", tokenLength), ("singletons_per_token", singletons)])
      <==> language > 0.2 && lineLength > 10.0 && tokenLength > 4.0 && singletons < 0.1
  {
    var scores := [("size", size), ("language", language), ("average_line_length", lineLength),
                   ("average_token_length", tokenLength), ("singletons_per_token", singletons)];
    assert "size" !in ParagraphTests;
    if AllPass(ParagraphTests, scores) {
      assert scores[1].0 in ParagraphTests && scores[2].0 in ParagraphTests;
      assert scores[3].0 in ParagraphTests && scores[4].0 in ParagraphTests;
    }
  }

  /**
   * `DocumentScores`: the document's scores. Only the document that owns a
   * record updates it, so it is kept as a value the document reassigns.
   */
  datatype DocumentScores = DocumentScores(size: int, language: real, medrxiv: real)
  {
    /** The fields by name, in declaration order (`__dict__.items()`). */
    function Fields(): seq<(string, real)>
    {
      [("size", size as real), ("language", language), ("medrxiv", medrxiv)]
    }
  }

  /** `ParagraphScores`: the paragraph's scores, a value the paragraph reassigns. */
  datatype ParagraphScores = ParagraphScores(size: int, language: real, averageLineLength: real,
                                             averageTokenLength: real, singletonsPerToken: real)
  {
    /** The fields by name, in declaration order (`__dict__.items()`). */
    function Fields(): seq<(string, real)>
    {
      [("size", size as real), ("language", language), ("average_line_length", averageLineLength),
       ("average_token_length", averageTokenLength), ("singletons_per_token", singletonsPerToken)]
    }
  }

  class Paragraph {
    const document: Document
    /** The paragraph's text, stripped. */
    const content: string
    const lines: seq<string> := Split(content, "\n")
    const tokens: multiset<string> := multiset(Words(content))
    const lineCount: nat := |lines|
    const tokenCount: nat := |tokens|
    var scores: ParagraphScores
    /** Index of the preceding paragraph in the document. */
    var previous: Option<nat>
    /** Index of the following paragraph in the document. */
    var next: Option<nat>
    var isAbstract: bool
    /**
     * Whether the paragraph qualifies as an abstract, recorded when it is
     * built so that reasoning about many paragraphs at once need not look
     * into their text; `Valid()` ties it to the text.
     */
    ghost const verdict: bool
    /** The paragraph's index in its document, recorded when the document creates it. */
    ghost const position: nat

    /** `Paragraph(content, doc)`: strip the text, derive lines and tokens, score it. */
    constructor (text: string, doc: Document, ghost position: nat)
      ensures Built(text, doc, position) && Scored()
    {
      document := doc;
      this.position := position;
      content := Strip(text);
      verdict := TextAfterMarker(Split(Strip(text), "\n")) != "";
      previous, next, isAbstract := None, None, false;
      scores := ParagraphScores(0, 0.0, 0.0, 0.0, 0.0);
      new;
      SetScores();
    }

    /**
     * The state `Paragraph(text, doc)` leaves: the stripped text, no
     * neighbours, not an abstract, and the scores computed.
     */
    ghost predicate Built(text: string, doc: Document, position: nat)
      reads this`previous, this`next, this`isAbstract, this`scores
    {
      && document == doc && content == Strip(text) && this.position == position
      && previous == None && next == None && !isAbstract
      && Valid()
    }

    /**
     * What `set_scores` computes from the paragraph's text: its length, the
     * share of frequent words, the line and token averages and the singleton
     * ratio.
     */
    ghost function ComputedScores(): ParagraphScores
    {
      ParagraphScores(|content|, FrequentShare(tokens, document.frequentWords), AverageLineLength(),
                      MeanLength(tokenCount, tokens), SingletonsPerToken())
    }

    /** The scores hold what `set_scores` computes. */
    ghost predicate Scored()
      reads this`scores
    {
      scores == ComputedScores()
    }

    /** `set_scores`. */
    method SetScores()
      modifies this`scores
      ensures Scored()
    {
      scores := scores.(size := |content|);
      var language := LanguageScore(tokens, document.frequentWords);
      scores := scores.(language := language);
      scores := scores.(averageLineLength := AverageLineLength());
      var tokenLength := AverageTokenLength();
      scores := scores.(averageTokenLength := tokenLength);
      scores := scores.(singletonsPerToken := SingletonsPerToken());
    }

    /**
     * `average_line_length`: characters per line. There is always a line,
     * even for an empty paragraph, so the division is defined.
     */
    function AverageLineLength(): (average: real)
      ensures lineCount >= 1
      ensures 0.0 <= average <= |content| as real
      ensures content == "" ==> average == 0.0
    {
      DivideByCount(|content|, lineCount);
      |content| as real / lineCount as real
    }

    /**
     * `average_token_length`. Tokens are never empty, so a paragraph with
     * tokens averages at least one character per token.
     */
    method AverageTokenLength() returns (average: real)
      ensures average == MeanLength(tokenCount, tokens)
      ensures tokenCount > 0 ==> average >= 1.0
    {
      average := Utils.AverageTokenLength(tokenCount, tokens);
      if tokenCount > 0 {
        MeanLengthBounds(tokens, 1, LongestToken(tokens));
      }
    }

    /**
     * `singletons_per_token`: the number of distinct one-character tokens
     * over the number of token occurrences, 0 without tokens.
     */
    function SingletonsPerToken(): (ratio: real)
      ensures 0.0 <= ratio <= 1.0
      ensures tokenCount == 0 ==> ratio == 0.0
    {
      var singletons := set t | t in tokens && |t| == 1;
      if tokenCount == 0 then 0.0
      else
        DistinctAtMostSize(tokens);
        assert singletons <= set t | t in tokens;
        SubsetSize(singletons, set t | t in tokens);
        RatioBounds(|singletons| as real, tokenCount as real, 0.0, 1.0);
        |singletons| as real / tokenCount as real
    }

    /**
     * `abstract_content`: the lines after the first marker line, joined
     * again; empty without a marker. It is always the tail of the
     * paragraph's text.
     */
    function AbstractContent(): (text: string)
      ensures FirstMarker(lines).None? ==> text == ""
      ensures |text| <= |content| && content[|content| - |text|..] == text
      ensures FirstMarker(lines).Some? && FirstMarker(lines).value + 1 < |lines| ==>
        content == Join("\n", lines[..FirstMarker(lines).value + 1]) + "\n" + text
    {
      SplitJoin(content, "\n");
      TextAfterMarkerIsTail(lines);
      TextAfterMarker(lines)
    }

    /** The paragraph has a marker line followed by non-empty text: `abstract_content()` is not empty. */
    predicate Qualifies() {
      AbstractContent() != ""
    }

    /** The recorded verdict is the paragraph's own. */
    ghost predicate Valid() {
      verdict == (TextAfterMarker(lines) != "")
    }

    /**
     * `parse`: stop at the first marker line; only when text follows it mark
     * the paragraph as abstract and make it the document's abstract.
     */
    method Parse()
      requires Valid()
      modifies this`isAbstract, document`abstractParagraph
      ensures isAbstract == (old(isAbstract) || verdict)
      ensures document.abstractParagraph == if verdict then this else old(document.abstractParagraph)
    {
      for i := 0 to |lines|
        invariant forall j :: 0 <= j < i ==> !IsMarker(lines[j])
        invariant isAbstract == old(isAbstract) && document.abstractParagraph == old(document.abstractParagraph)
      {
        if IsMarker(lines[i]) {
          if AbstractContent() != "" {
            isAbstract := true;
            document.abstractParagraph := this;
          }
          return;
        }
      }
    }

    /** `is_useful`: an abstract is useful; any other paragraph must pass the paragraph tests. */
    method IsUseful() returns (useful: bool)
      ensures useful <==> isAbstract || (scores.language > 0.2 && scores.averageLineLength > 10.0
                                         && scores.averageTokenLength > 4.0 && scores.singletonsPerToken < 0.1)
    {
      if isAbstract {
        return true;
      }
      useful := RunTests(ParagraphTests, scores.Fields());
      ParagraphTestsMeaning(scores.size as real, scores.language, scores.averageLineLength,
                            scores.averageTokenLength, scores.singletonsPerToken);
    }
  }

  /** The length of the longest token. */
  ghost function LongestToken(tokens: multiset<string>): (n: nat)
    ensures forall t :: t in tokens ==> |t| <= n
  {
    if tokens == multiset{} then 0
    else
      var t :| t in tokens;
      var rest := tokens[t := 0];
      var n := LongestToken(rest);
      assert forall u :: u in tokens ==> u == t || u in rest;
      if |t| > n then |t| else n
  }

  /** A subset has at most as many elements. */
  lemma {:induction false} SubsetSize(a: set<string>, b: set<string>)
    requires a <= b
    ensures |a| <= |b|
    decreases |b|
  {
    if b != {} {
      var x :| x in b;
      SubsetSize(a - {x}, b - {x});
    }
  }

  /**
   * The index of the last paragraph among the first `n` that qualifies as an
   * abstract: the one an in-order scan of them leaves as the document's
   * abstract.
   */
  ghost function LastQualifying(paras: seq<Paragraph>, n: nat): (k: Option<nat>)
    requires n <= |paras|
    ensures k.Some? ==> k.value < n && paras[k.value].verdict
    ensures forall j {:trigger paras[j].verdict} :: 0 <= j < n && (k.None? || k.value < j) ==> !paras[j].verdict
  {
    if n == 0 then None
    else if paras[n - 1].verdict then Some(n - 1)
    else LastQualifying(paras, n - 1)
  }

  class Document {
    const name: string
    /** The raw text. */
    const content: string
    /** The parsed parser record paired with the text. */
    const scpa: Metadata
    const frequentWords: set<string>
    const lines: seq<string> := Split(content, "\n")
    const tokens: multiset<string> := multiset(Words(content))
    const lineCount: nat := |lines|
    const tokenCount: nat := |tokens|
    const jsonDoc: JsonDocument := Load(scpa)
    var scores: DocumentScores
    var paras: seq<Paragraph>
    var paraCount: nat
    /** `abstract`: the paragraph taken as the heuristic abstract, or null. */
    var abstractParagraph: Paragraph?

    /**
     * The paragraphs are the stripped blank-line pieces of the text, in
     * order, each of them this document's own, at its own position, and
     * scored; the count is theirs.
     */
    ghost predicate Valid()
      reads this`paras, this`paraCount, paras`scores
    {
      && |paras| == |Split(content, "\n\n")|
      && paraCount == |paras|
      && (forall i :: 0 <= i < |paras| ==> paras[i].document == this && paras[i].position == i)
      && (forall i {:trigger paras[i].content} :: 0 <= i < |paras| ==> paras[i].content == Strip(Split(content, "\n\n")[i]))
      && (forall i {:trigger paras[i].Valid()} :: 0 <= i < |paras| ==> paras[i].Valid())
      && (forall i {:trigger paras[i].Scored()} :: 0 <= i < |paras| ==> paras[i].Scored())
    }

    /** Each paragraph points to its neighbours; the first has no previous and the last no next. */
    ghost predicate Linked()
      reads this`paras, paras`next, paras`previous
    {
      forall i {:trigger paras[i].next} {:trigger paras[i].previous} :: 0 <= i < |paras| ==>
        && paras[i].next == (if i + 1 < |paras| then Some(i + 1) else None)
        && paras[i].previous == (if i > 0 then Some(i - 1) else None)
    }

    /** Exactly the qualifying paragraphs are abstracts, and the document's abstract is the last of them. */
    ghost predicate Scanned()
      reads this`paras, this`abstractParagraph, paras`isAbstract
    {
      && (forall i {:trigger paras[i].isAbstract} :: 0 <= i < |paras| ==> paras[i].isAbstract == paras[i].verdict)
      && (LastQualifying(paras, |paras|).None? ==> abstractParagraph == null)
      && (LastQualifying(paras, |paras|).Some? ==> abstractParagraph == paras[LastQualifying(paras, |paras|).value])
    }

    /** No paragraph has been parsed yet: none is an abstract. */
    ghost predicate Unparsed()
      reads this`paras, paras`isAbstract
    {
      forall i {:trigger paras[i].isAbstract} :: 0 <= i < |paras| ==> !paras[i].isAbstract
    }

    /** No paragraph has neighbours yet. */
    ghost predicate Unlinked()
      reads this`paras, paras`next, paras`previous
    {
      forall i {:trigger paras[i].next} {:trigger paras[i].previous} :: 0 <= i < |paras| ==>
        paras[i].previous == None && paras[i].next == None
    }

    /** `Document(name, text_file, scpa_file)`, given the file contents instead of the file names. */
    constructor (name: string, content: string, scpa: Metadata, frequentWords: set<string>)
      ensures this.name == name && this.content == content && this.scpa == scpa
      ensures this.frequentWords == frequentWords
      ensures Valid() && Linked() && Scanned()
      ensures scores.size == |content| && scores.language == FrequentShare(tokens, frequentWords)
      ensures scores.medrxiv == MedrxivScore(content, |paras|)
    {
      this.name := name;
      this.content := content;
      this.scpa := scpa;
      this.frequentWords := frequentWords;
      scores := DocumentScores(0, 0.0, 0.0);
      paras, paraCount, abstractParagraph := [], 0, null;
      new;
      MakeParagraphs();
      SetScores();
      LinkParagraphs();
      ParseParagraphs();
    }

    /**
     * `self.paras = [Paragraph(p, self) for p in self.content.split("\n\n")]`
     * and the paragraph count: fresh, unlinked, unparsed, scored paragraphs.
     */
    method MakeParagraphs()
      modifies this`paras, this`paraCount
      ensures abstractParagraph == old(abstractParagraph)
      ensures Valid() && Unlinked() && Unparsed()
      ensures forall i :: 0 <= i < |paras| ==> fresh(paras[i])
    {
      var pieces := Split(content, "\n\n");
      var made: seq<Paragraph> := [];
      for i := 0 to |pieces|
        invariant |made| == i
        invariant forall j :: 0 <= j < i ==> fresh(made[j])
        invariant forall j {:trigger made[j].Built(pieces[j], this, j)} :: 0 <= j < i ==> made[j].Built(pieces[j], this, j)
        invariant forall j {:trigger made[j].Scored()} :: 0 <= j < i ==> made[j].Scored()
      {
        var p := new Paragraph(pieces[i], this, i);
        made := made + [p];
      }
      paras, paraCount := made, |made|;
      forall j | 0 <= j < |paras|
        ensures paras[j].document == this && paras[j].position == j && paras[j].Valid()
        ensures paras[j].content == Strip(pieces[j])
        ensures paras[j].previous == None && paras[j].next == None && !paras[j].isAbstract
      {
        assert paras[j].Built(pieces[j], this, j);
      }
    }

    /** `set_scores`. */
    method SetScores()
      requires Valid()
      modifies this`scores
      ensures Unlinked() == old(Unlinked())
      ensures Unparsed() == old(Unparsed()) && abstractParagraph == old(abstractParagraph)
      ensures Valid()
      ensures scores.size == |content| && scores.language == FrequentShare(tokens, frequentWords)
      ensures scores.medrxiv == MedrxivScore(content, paraCount)
    {
      scores := scores.(size := |content|);
      var language := LanguageScore(tokens, frequentWords);
      scores := scores.(language := language);
      scores := scores.(medrxiv := MedrxivScore(content, paraCount));
    }

    /** `link_paragraphs`: each paragraph but the last gets a next, each but the first a previous. */
    method LinkParagraphs()
      requires Valid()
      modifies paras`next, paras`previous
      ensures scores == old(scores)
      ensures Unparsed() == old(Unparsed()) && abstractParagraph == old(abstractParagraph)
      ensures Valid()
      ensures forall i :: 0 <= i < |paras| ==>
        paras[i].next == (if i + 1 < |paras| then Some(i + 1) else old(paras[i].next))
      ensures forall i :: 0 <= i < |paras| ==>
        paras[i].previous == (if i > 0 then Some(i - 1) else old(paras[i].previous))
      ensures old(Unlinked()) ==> Linked()
    {
      for i := 0 to |paras| - 1
        invariant forall j :: 0 <= j < |paras| ==>
          paras[j].next == (if j < i then Some(j + 1) else old(paras[j].next))
        invariant forall j :: 0 <= j < |paras| ==>
          paras[j].previous == (if 0 < j <= i then Some(j - 1) else old(paras[j].previous))
      {
        paras[i].next := Some(i + 1);
        paras[i + 1].previous := Some(i);
      }
    }

    /**
     * `parse_paragraphs`: parse every paragraph in order. A qualifying
     * paragraph becomes an abstract and overwrites the document's abstract,
     * so the last qualifying paragraph is left as the document's abstract.
     */
    method ParseParagraphs()
      requires Valid()
      modifies this`abstractParagraph, paras`isAbstract
      ensures Linked() == old(Linked()) && scores == old(scores)
      ensures Valid()
      ensures forall i :: 0 <= i < |paras| ==> paras[i].isAbstract == (old(paras[i].isAbstract) || paras[i].verdict)
      ensures LastQualifying(paras, |paras|).None? ==> abstractParagraph == old(abstractParagraph)
      ensures LastQualifying(paras, |paras|).Some? ==> abstractParagraph == paras[LastQualifying(paras, |paras|).value]
      ensures old(Unparsed()) && old(abstractParagraph) == null ==> Scanned()
    {
      for i := 0 to |paras|
        invariant forall j :: 0 <= j < i ==> paras[j].isAbstract == (old(paras[j].isAbstract) || paras[j].verdict)
        invariant forall j :: i <= j < |paras| ==> paras[j].isAbstract == old(paras[j].isAbstract)
        invariant LastQualifying(paras, i).None? ==> abstractParagraph == old(abstractParagraph)
        invariant LastQualifying(paras, i).Some? ==> abstractParagraph == paras[LastQualifying(paras, i).value]
      {
        var p := paras[i];
        assert p.Valid();
        ghost var before := abstractParagraph;
        p.Parse();
        if p.verdict {
          assert LastQualifying(paras, i + 1) == Some(i);
        } else {
          assert abstractParagraph == before && LastQualifying(paras, i + 1) == LastQualifying(paras, i);
        }
      }
    }

    /**
     * `abstract_content`: the abstract paragraph's text after its marker, or
     * None when there is no abstract paragraph or it is empty (a paragraph's
     * truth value is its length). The text is a tail of the paragraph.
     */
    function AbstractContent(): (text: Option<string>)
      reads this
      ensures text.Some? <==> abstractParagraph != null && abstractParagraph.content != ""
      ensures text.Some? ==> |text.value| <= |abstractParagraph.content|
      ensures text.Some? ==> abstractParagraph.content[|abstractParagraph.content| - |text.value|..] == text.value
    {
      if abstractParagraph != null && |abstractParagraph.content| > 0 then Some(abstractParagraph.AbstractContent()) else None
    }

    /** `has_abstract`: there is an abstract paragraph and it is not empty. */
    predicate HasAbstract()
      reads this
      ensures HasAbstract() <==> abstractParagraph != null && abstractParagraph.content != ""
    {
      AbstractContent().Some?
    }

    /** `abstract_content_scpa`: the parser's abstract when it is present and not empty. */
    function AbstractContentScpa(): (text: Option<string>)
      ensures text.Some? <==> scpa.abstractText.Value? && scpa.abstractText.value != ""
      ensures text.Some? ==> text.value == scpa.abstractText.value
    {
      UsableAbstractOfRecord(scpa);
      UsableAbstract(jsonDoc)
    }

    /** `has_abstract_scpa`: the record's `abstractText` is present, not null and not empty. */
    predicate HasAbstractScpa()
      ensures HasAbstractScpa() <==> scpa.abstractText.Value? && scpa.abstractText.value != ""
    {
      AbstractContentScpa().Some?
    }

    /** `is_useful`: every document test passes. */
    method IsUseful() returns (useful: bool)
      ensures useful <==> scores.size as real > 1000.0 && scores.language > 0.2 && scores.medrxiv < 0.1
    {
      useful := RunTests(DocumentTests, scores.Fields());
      DocumentTestsMeaning(scores.size as real, scores.language, scores.medrxiv);
    }
  }

  /**
   * After the scan, the document has an abstract exactly when some paragraph
   * qualifies, equivalently when some paragraph is marked as an abstract.
   * Its text is the non-empty text after the marker of the last qualifying
   * paragraph: later matches overwrite earlier ones.
   */
  lemma {:induction false} AbstractIsLastQualifying(d: Document)
    requires d.Valid() && d.Scanned()
    ensures d.HasAbstract() <==> exists i :: 0 <= i < |d.paras| && d.paras[i].Qualifies()
    ensures d.HasAbstract() <==> exists i :: 0 <= i < |d.paras| && d.paras[i].isAbstract
    ensures d.HasAbstract() ==>
      exists k :: 0 <= k < |d.paras| && d.paras[k].Qualifies() && d.AbstractContent() == Some(d.paras[k].AbstractContent())
                  && forall j :: k < j < |d.paras| ==> !d.paras[j].Qualifies()
    ensures d.HasAbstract() ==> d.AbstractContent().value != ""
  {
    var last := LastQualifying(d.paras, |d.paras|);
    forall j | 0 <= j < |d.paras|
      ensures d.paras[j].Qualifies() == d.paras[j].verdict
    {
      assert d.paras[j].Valid();
    }
    if last.Some? {
      var k := last.value;
      var p := d.paras[k];
      assert p.isAbstract && p.Qualifies();
      assert |p.content| > 0;
      assert d.AbstractContent() == Some(p.AbstractContent());
    }
  }

  /** Of two qualifying paragraphs, the earlier one is never the document's abstract. */
  lemma LastMatchWins(d: Document, i: nat, j: nat)
    requires d.Valid() && d.Scanned()
    requires i < j < |d.paras| && d.paras[i].Qualifies() && d.paras[j].Qualifies()
    ensures d.abstractParagraph != null && d.abstractParagraph != d.paras[i]
  {
    assert d.paras[j].Valid();
  }
}
