/**
 * The earlier abstract extractor. As in the document parser, a document is
 * cut into paragraphs on blank lines, the paragraphs are linked to their
 * neighbours and scanned in order. Here a marker line alone makes a
 * paragraph the abstract, even with nothing after it, and the last marked
 * paragraph wins. The only score is the language score, which has no guard
 * for a text without tokens. `content_as_html` marks where each abstract
 * starts in the text and breaks its lines for HTML.
 *
 * Neighbours are kept as indices into the document's paragraph sequence.
 * The document's abstract is a reference to one of its paragraphs. A
 * document is built from its text and its parsed parser record, not from
 * file names. The frequent-word list is a set given at construction.
 */
module Parse {
  import opened Wrappers
  import opened Strings
  import opened Tally
  import opened Utils
  import opened Markers
  import opened ScienceParse
  import Docs

  /** The tag put before the heuristic abstract. */
  const HeurTag := "<b><span style=\"color:red\">HEUR&gt; </span></b>"

  /** The tag put before the parser's abstract. */
  const ScpaTag := "<b><span style=\"color:blue\">SCPA&gt; </span></b>"

  class Paragraph {
    const document: Document
    /** The paragraph's text, stripped. */
    const content: string
    const lines: seq<string> := Split(content, "\n")
    /** Index of the preceding paragraph in the document. */
    var previous: Option<nat>
    /** Index of the following paragraph in the document. */
    var next: Option<nat>
    var isAbstract: bool
    /**
     * Whether some line is a marker, recorded when the paragraph is built
     * so that reasoning about many paragraphs at once need not look into
     * their text; `Valid()` ties it to the text.
     */
    ghost const marked: bool
    /** The paragraph's index in its document, recorded when the document creates it. */
    ghost const position: nat

    /** `Paragraph(content, doc)`: strip the text and cut it into lines. */
    constructor (text: string, doc: Document, ghost position: nat)
      ensures Built(text, doc, position)
    {
      document := doc;
      this.position := position;
      content := Strip(text);
      marked := HasMarker(Split(Strip(text), "\n"));
      previous, next, isAbstract := None, None, false;
    }

    /** The state `Paragraph(text, doc)` leaves: the stripped text, no neighbours, not an abstract. */
    ghost predicate Built(text: string, doc: Document, position: nat)
      reads this`previous, this`next, this`isAbstract
    {
      && document == doc && content == Strip(text) && this.position == position
      && previous == None && next == None && !isAbstract
      && Valid()
    }

    /** The recorded mark is the paragraph's own. */
    ghost predicate Valid() {
      marked == HasMarker(lines)
    }

    /**
     * `abstract_content`: for an abstract, the lines after the first marker
     * line, joined again; otherwise empty. It is always the tail of the
     * paragraph's text.
     */
    function AbstractContent(): (text: string)
      reads this`isAbstract
      ensures !isAbstract || FirstMarker(lines).None? ==> text == ""
      ensures |text| <= |content| && content[|content| - |text|..] == text
      ensures isAbstract && FirstMarker(lines).Some? && FirstMarker(lines).value + 1 < |lines| ==>
        content == Join("\n", lines[..FirstMarker(lines).value + 1]) + "\n" + text
    {
      if isAbstract then
        SplitJoin(content, "\n");
        TextAfterMarkerIsTail(lines);
        TextAfterMarker(lines)
      else ""
    }

    /**
     * `parse`: a marker line anywhere, the first line checked before the
     * others, makes the paragraph an abstract and the document's abstract.
     */
    method Parse()
      requires Valid()
      modifies this`isAbstract, document`abstractParagraph
      ensures isAbstract == (old(isAbstract) || marked)
      ensures document.abstractParagraph == if marked then this else old(document.abstractParagraph)
    {
      if IsMarker(lines[0]) {
        isAbstract := true;
        document.abstractParagraph := this;
        return;
      }
      for i := 0 to |lines|
        invariant forall j :: 0 <= j < i ==> !IsMarker(lines[j])
        invariant isAbstract == old(isAbstract) && document.abstractParagraph == old(document.abstractParagraph)
      {
        if IsMarker(lines[i]) {
          isAbstract := true;
          document.abstractParagraph := this;
          return;
        }
      }
    }
  }

  /**
   * The index of the last paragraph among the first `n` that has a marker
   * line: the one an in-order scan of them leaves as the document's abstract.
   */
  ghost function LastMarked(paras: seq<Paragraph>, n: nat): (k: Option<nat>)
    requires n <= |paras|
    ensures k.Some? ==> k.value < n && paras[k.value].marked
    ensures forall j {:trigger paras[j].marked} :: 0 <= j < n && (k.None? || k.value < j) ==> !paras[j].marked
  {
    if n == 0 then None
    else if paras[n - 1].marked then Some(n - 1)
    else LastMarked(paras, n - 1)
  }

  /**
   * `text[:idx] + tag + text[idx:]` with `idx = text.find(a[:25])`: the
   * tag goes right before the first occurrence of the first 25 characters
   * of `a`. When they do not occur, `find` gives -1 and the slices put the
   * tag before the last character.
   */
  function Mark(text: string, a: string, tag: string): (r: string)
    ensures |r| == |text| + |tag|
    ensures Find(text, Prefix(a, 25)) >= 0 ==>
      r == text[..Find(text, Prefix(a, 25))] + tag + text[Find(text, Prefix(a, 25))..]
    ensures Find(text, Prefix(a, 25)) < 0 && text != "" ==> r == text[..|text| - 1] + tag + text[|text| - 1..]
    ensures Prefix(a, 25) == "" || text == "" ==> r == tag + text
  {
    var idx := Find(text, Prefix(a, 25));
    assert Prefix(a, 25) == "" ==> MatchAt(text, "", 0);
    Prefix(text, idx) + tag + Suffix(text, idx)
  }

  /** Cutting the tag back out of a marked text gives the text back. */
  lemma MarkUndone(text: string, a: string, tag: string)
    ensures exists k :: 0 <= k <= |text| && Mark(text, a, tag)[k..k + |tag|] == tag
                         && Mark(text, a, tag)[..k] + Mark(text, a, tag)[k + |tag|..] == text
  {
    var r := Mark(text, a, tag);
    var idx := Find(text, Prefix(a, 25));
    var k := if idx >= 0 then idx else if text == "" then 0 else |text| - 1;
    assert r == text[..k] + tag + text[k..];
    assert r[k..k + |tag|] == tag;
    assert r[..k] == text[..k] && r[k + |tag|..] == text[k..];
    assert text[..k] + text[k..] == text;
  }

  class Document {
    const identifier: string
    /** The raw text. */
    const content: string
    /** The parsed parser record paired with the text. */
    const scpa: Metadata
    const frequentWords: set<string>
    const jsonDoc: JsonDocument := Load(scpa)
    const tokens: multiset<string> := multiset(Words(content))
    var paras: seq<Paragraph>
    /** `abstract`: the paragraph taken as the heuristic abstract, or null. */
    var abstractParagraph: Paragraph?
    var language: real

    /**
     * The paragraphs are the stripped blank-line pieces of the text, in
     * order, each of them this document's own and at its own position.
     */
    ghost predicate Valid()
      reads this`paras
    {
      && |paras| == |Split(content, "\n\n")|
      && (forall i :: 0 <= i < |paras| ==> paras[i].document == this && paras[i].position == i)
      && (forall i {:trigger paras[i].content} :: 0 <= i < |paras| ==> paras[i].content == Strip(Split(content, "\n\n")[i]))
      && (forall i {:trigger paras[i].Valid()} :: 0 <= i < |paras| ==> paras[i].Valid())
    }

    /** Each paragraph points to its neighbours; the first has no previous and the last no next. */
    ghost predicate Linked()
      reads this`paras, paras`next, paras`previous
    {
      forall i {:trigger paras[i].next} {:trigger paras[i].previous} :: 0 <= i < |paras| ==>
        && paras[i].next == (if i + 1 < |paras| then Some(i + 1) else None)
        && paras[i].previous == (if i > 0 then Some(i - 1) else None)
    }

    /** Exactly the marked paragraphs are abstracts, and the document's abstract is the last of them. */
    ghost predicate Scanned()
      reads this`paras, this`abstractParagraph, paras`isAbstract
    {
      && (forall i {:trigger paras[i].isAbstract} :: 0 <= i < |paras| ==> paras[i].isAbstract == paras[i].marked)
      && (LastMarked(paras, |paras|).None? ==> abstractParagraph == null)
      && (LastMarked(paras, |paras|).Some? ==> abstractParagraph == paras[LastMarked(paras, |paras|).value])
    }

    /** No paragraph has been parsed yet: none is an abstract. */
    ghost predicate Unparsed()
      reads this`paras, paras`isAbstract
    {
      forall i {:trigger paras[i].isAbstract} :: 0 <= i < |paras| ==> !paras[i].isAbstract
    }

    /** No paragraph has neighbours yet. */
    ghost predicate Unlinked()
      reads this`paras, paras`next, paras`previous
    {
      forall i {:trigger paras[i].next} {:trigger paras[i].previous} :: 0 <= i < |paras| ==>
        paras[i].previous == None && paras[i].next == None
    }

    /**
     * `Document(identifier, text_file, scpa_file)`, given the file contents
     * instead of the file names. The text must hold a token: the language
     * score divides by the number of tokens.
     */
    constructor (identifier: string, content: string, scpa: Metadata, frequentWords: set<string>)
      requires Words(content) != []
      ensures this.identifier == identifier && this.content == content && this.scpa == scpa
      ensures this.frequentWords == frequentWords
      ensures Valid() && Linked() && Scanned()
      ensures language == FrequentShare(tokens, frequentWords)
    {
      this.identifier := identifier;
      this.content := content;
      this.scpa := scpa;
      this.frequentWords := frequentWords;
      paras, abstractParagraph, language := [], null, 0.0;
      new;
      MakeParagraphs();
      SetLanguageScore();
      Link();
      ParseParagraphs();
    }

    /** `self.paras = [Paragraph(p, self) for p in self.content.split("\n\n")]`: fresh, unlinked, unparsed paragraphs. */
    method MakeParagraphs()
      modifies this`paras
      ensures abstractParagraph == old(abstractParagraph)
      ensures Valid() && Unlinked() && Unparsed()
      ensures forall i :: 0 <= i < |paras| ==> fresh(paras[i])
    {
      var pieces := Split(content, "\n\n");
      var made: seq<Paragraph> := [];
      for i := 0 to |pieces|
        invariant |made| == i
        invariant forall j :: 0 <= j < i ==> fresh(made[j])
        invariant forall j {:trigger made[j].Built(pieces[j], this, j)} :: 0 <= j < i ==> made[j].Built(pieces[j], this, j)
      {
        var p := new Paragraph(pieces[i], this, i);
        made := made + [p];
      }
      paras := made;
      forall j | 0 <= j < |paras|
        ensures paras[j].document == this && paras[j].position == j && paras[j].Valid()
        ensures paras[j].content == Strip(pieces[j])
        ensures paras[j].previous == None && paras[j].next == None && !paras[j].isAbstract
      {
        assert paras[j].Built(pieces[j], this, j);
      }
    }

    /**
     * `set_language_score`: add up all occurrences and the occurrences of
     * frequent words over the counter's items, then divide.
     */
    method SetLanguageScore()
      requires |tokens| > 0
      modifies this`language
      ensures language == FrequentShare(tokens, frequentWords)
      ensures 0.0 <= language <= 1.0
    {
      var inFrequentWords := 0;
      var totalTokens := 0;
      var items := tokens;
      while items != multiset{}
        invariant inFrequentWords + Weighted(items, InSet(frequentWords)) == Weighted(tokens, InSet(frequentWords))
        invariant totalTokens + |items| == |tokens|
        decreases |items|
      {
        var token :| token in items;
        WeightedPick(items, InSet(frequentWords), token);
        RemovedSize(items, token);
        totalTokens := totalTokens + items[token];
        if token in frequentWords {
          inFrequentWords := inFrequentWords + items[token];
        }
        items := items[token := 0];
      }
      language := inFrequentWords as real / totalTokens as real;
      ShareBounds(tokens, frequentWords);
    }

    /** `link`: each paragraph but the last gets a next, each but the first a previous. */
    method Link()
      requires Valid()
      modifies paras`next, paras`previous
      ensures Valid()
      ensures forall i :: 0 <= i < |paras| ==>
        paras[i].next == (if i + 1 < |paras| then Some(i + 1) else old(paras[i].next))
      ensures forall i :: 0 <= i < |paras| ==>
        paras[i].previous == (if i > 0 then Some(i - 1) else old(paras[i].previous))
      ensures old(Unlinked()) ==> Linked()
    {
      for i := 0 to |paras| - 1
        invariant forall j :: 0 <= j < |paras| ==>
          paras[j].next == (if j < i then Some(j + 1) else old(paras[j].next))
        invariant forall j :: 0 <= j < |paras| ==>
          paras[j].previous == (if 0 < j <= i then Some(j - 1) else old(paras[j].previous))
      {
        paras[i].next := Some(i + 1);
        paras[i + 1].previous := Some(i);
      }
    }

    /**
     * `parse`: parse every paragraph in order. A marked paragraph becomes an
     * abstract and overwrites the document's abstract, so the last marked
     * paragraph is left as the document's abstract.
     */
    method ParseParagraphs()
      requires Valid()
      modifies this`abstractParagraph, paras`isAbstract
      ensures Linked() == old(Linked())
      ensures Valid()
      ensures forall i :: 0 <= i < |paras| ==> paras[i].isAbstract == (old(paras[i].isAbstract) || paras[i].marked)
      ensures LastMarked(paras, |paras|).None? ==> abstractParagraph == old(abstractParagraph)
      ensures LastMarked(paras, |paras|).Some? ==> abstractParagraph == paras[LastMarked(paras, |paras|).value]
      ensures old(Unparsed()) && old(abstractParagraph) == null ==> Scanned()
    {
      for i := 0 to |paras|
        invariant forall j :: 0 <= j < i ==> paras[j].isAbstract == (old(paras[j].isAbstract) || paras[j].marked)
        invariant forall j :: i <= j < |paras| ==> paras[j].isAbstract == old(paras[j].isAbstract)
        invariant LastMarked(paras, i).None? ==> abstractParagraph == old(abstractParagraph)
        invariant LastMarked(paras, i).Some? ==> abstractParagraph == paras[LastMarked(paras, i).value]
      {
        var p := paras[i];
        assert p.Valid();
        ghost var before := abstractParagraph;
        p.Parse();
        if p.marked {
          assert LastMarked(paras, i + 1) == Some(i);
        } else {
          assert abstractParagraph == before && LastMarked(paras, i + 1) == LastMarked(paras, i);
        }
      }
    }

    /**
     * `abstract_content`: the abstract paragraph's text after its marker, or
     * None when there is no abstract paragraph or it is empty (a paragraph's
     * truth value is its length). The text is a tail of the paragraph, and
     * it is empty when the paragraph is not flagged as an abstract.
     */
    function AbstractContent(): (text: Option<string>)
      reads this, abstractParagraph
      ensures text.Some? <==> abstractParagraph != null && abstractParagraph.content != ""
      ensures text.Some? ==> |text.value| <= |abstractParagraph.content|
      ensures text.Some? ==> abstractParagraph.content[|abstractParagraph.content| - |text.value|..] == text.value
      ensures text.Some? && !abstractParagraph.isAbstract ==> text.value == ""
    {
      if abstractParagraph != null && |abstractParagraph.content| > 0 then Some(abstractParagraph.AbstractContent()) else None
    }

    /**
     * `has_abstract`: there is an abstract paragraph and it is not empty,
     * even when the text after its marker is empty.
     */
    predicate HasAbstract()
      reads this, abstractParagraph
      ensures HasAbstract() <==> abstractParagraph != null && abstractParagraph.content != ""
    {
      AbstractContent().Some?
    }

    /** The text with the two tags put in, before its lines are broken. */
    ghost function Tagged(): string
      reads this, abstractParagraph
    {
      var heur := AbstractContent();
      var scpaAbstract := UsableAbstract(jsonDoc);
      var text := if heur.Some? then Mark(content, heur.value, HeurTag) else content;
      if scpaAbstract.Some? then Mark(text, scpaAbstract.value, ScpaTag) else text
    }

    /**
     * `content_as_html`: tag the heuristic abstract, then the parser's
     * abstract in the already tagged text, then break the lines. Without
     * either abstract only the lines are broken.
     */
    method ContentAsHtml() returns (html: string)
      ensures html == BreakLines(Tagged())
      ensures AbstractContent().None? && UsableAbstract(jsonDoc).None? ==> html == BreakLines(content)
      ensures |Tagged()| == |content| + (if AbstractContent().Some? then |HeurTag| else 0)
                                        + (if UsableAbstract(jsonDoc).Some? then |ScpaTag| else 0)
    {
      var text := content;
      var a1 := AbstractContent();
      var a2 := UsableAbstract(jsonDoc);
      if a1.Some? {
        var idx := Find(text, Prefix(a1.value, 25));
        text := Prefix(text, idx) + HeurTag + Suffix(text, idx);
      }
      if a2.Some? {
        var idx := Find(text, Prefix(a2.value, 25));
        text := Prefix(text, idx) + ScpaTag + Suffix(text, idx);
      }
      html := BreakLines(text);
    }
  }

  /**
   * After the scan, the document has an abstract exactly when some
   * paragraph has a marker line, equivalently when some paragraph is
   * marked as an abstract. Its text is the text after the marker of the
   * last marked paragraph, which may be empty.
   */
  lemma {:induction false} AbstractIsLastMarked(d: Document)
    requires d.Valid() && d.Scanned()
    ensures d.HasAbstract() <==> exists i :: 0 <= i < |d.paras| && HasMarker(d.paras[i].lines)
    ensures d.HasAbstract() <==> exists i :: 0 <= i < |d.paras| && d.paras[i].isAbstract
    ensures d.HasAbstract() ==>
      exists k :: 0 <= k < |d.paras| && HasMarker(d.paras[k].lines)
                  && d.AbstractContent() == Some(TextAfterMarker(d.paras[k].lines))
                  && forall j :: k < j < |d.paras| ==> !HasMarker(d.paras[j].lines)
  {
    var last := LastMarked(d.paras, |d.paras|);
    forall j | 0 <= j < |d.paras|
      ensures HasMarker(d.paras[j].lines) == d.paras[j].marked
    {
      assert d.paras[j].Valid();
    }
    if last.Some? {
      var p := d.paras[last.value];
      assert p.isAbstract && HasMarker(p.lines);
      MarkedTextNotEmpty(p.lines);
      SplitJoin(p.content, "\n");
      assert |p.content| > 0;
    }
  }

  /**
   * The heuristic abstract always occurs in the text, so its tag goes
   * right before the first occurrence of the abstract's first 25
   * characters, never before the last character by accident.
   */
  lemma HeuristicTagFound(d: Document)
    requires d.Valid() && d.Scanned() && d.AbstractContent().Some?
    ensures Find(d.content, Prefix(d.AbstractContent().value, 25)) >= 0
    ensures MatchAt(d.content, Prefix(d.AbstractContent().value, 25), Find(d.content, Prefix(d.AbstractContent().value, 25)))
  {
    var k := LastMarked(d.paras, |d.paras|).value;
    var p := d.paras[k];
    assert p.content == Strip(Split(d.content, "\n\n")[k]);
    TailOfPieceFound(d.content, k, p.content, p.AbstractContent());
  }

  /** The tail of a stripped blank-line piece of a text occurs in the text, and so does its start. */
  lemma TailOfPieceFound(text: string, k: nat, content: string, a: string)
    requires k < |Split(text, "\n\n")| && content == Strip(Split(text, "\n\n")[k])
    requires |a| <= |content| && content[|content| - |a|..] == a
    ensures Find(text, Prefix(a, 25)) >= 0
  {
    var pieceAt := SplitPieceOccurs(text, "\n\n", k);
    TailFound(text, Split(text, "\n\n")[k], pieceAt, a);
  }

  /** The start of the tail of a stripped piece of a text occurs in the text. */
  lemma TailFound(text: string, piece: string, pieceAt: nat, a: string)
    requires pieceAt + |piece| <= |text| && text[pieceAt..pieceAt + |piece|] == piece
    requires |a| <= |Strip(piece)| && Strip(piece)[|Strip(piece)| - |a|..] == a
    ensures Find(text, Prefix(a, 25)) >= 0
  {
    var content := Strip(piece);
    var stripAt := StripTrims(piece);
    var prefix := Prefix(a, 25);
    OccursWithin(text, piece, content, pieceAt, stripAt);
    OccursWithin(text, content, a, pieceAt + stripAt, |content| - |a|);
    OccursWithin(text, a, prefix, pieceAt + stripAt + |content| - |a|, 0);
  }

  /**
   * The two extractors' rules for one paragraph text: text after the
   * marker (the document parser's rule) implies a marker (this rule); they
   * differ exactly when the first marker is the paragraph's last line.
   */
  lemma RulesCompared(text: string, p: Paragraph, q: Docs.Paragraph)
    requires p.Valid() && q.Valid() && p.content == Strip(text) && q.content == Strip(text)
    ensures q.verdict ==> p.marked
    ensures p.marked && !q.verdict <==> FirstMarker(p.lines) == Some(|p.lines| - 1)
  {
    var lines := p.lines;
    assert q.lines == lines;
    if q.verdict {
      TextNeedsMarker(lines);
    }
    match FirstMarker(lines)
    case None =>
    case Some(i) =>
      if i + 1 < |lines| {
        TextAfterMarkerIsTail(lines);
        SplitJoin(p.content, "\n");
        var off := StripTrims(text);
        var rest := lines[i + 1..];
        assert |rest| >= 1;
      }
  }

  /** A paragraph that is only a marker line is an abstract here but not for the document parser. */
  lemma LoneMarker()
    ensures HasMarker(Split("Abstract", "\n")) && TextAfterMarker(Split("Abstract", "\n")) == ""
  {
    SplitWithoutSeparator("Abstract", "\n");
    LowerAt("Abstract");
    assert Lower("Abstract") == "abstract";
    assert IsMarker(Split("Abstract", "\n")[0]);
  }
}
