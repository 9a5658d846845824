/**
 * The parsed ScienceParse record a document is paired with, and the
 * `JsonDocument` wrapper built from it. The record is the `metadata` object
 * of the parser's JSON: `abstractText` may be missing, null or a string;
 * `sections` is null or a list of sections.
 */
module ScienceParse {
  import opened Wrappers

  /** A JSON object member that may be missing, null, or hold a value. */
  datatype Field<T> = Missing | Null | Value(value: T)

  /** One parser section: a heading that may be null, and its text. */
  datatype Section = Section(heading: Option<string>, text: string)

  /** The `metadata` object of the parser's output. */
  datatype Metadata = Metadata(abstractText: Field<string>, sections: Option<seq<Section>>)

  /** `JsonDocument` after construction: its abstract, sections and section headings. */
  datatype JsonDocument = JsonDocument(abstractText: Option<string>, sections: seq<Section>, headings: seq<Option<string>>)

  /** `get_abstract`: the `abstractText` member, None when it is missing or null. */
  function GetAbstract(metadata: Metadata): (r: Option<string>)
    ensures r.None? <==> metadata.abstractText == Missing || metadata.abstractText == Null
    ensures r.Some? ==> metadata.abstractText == Value(r.value)
  {
    match metadata.abstractText
    case Value(text) => Some(text)
    case _ => None
  }

  /** `get_sections`: the section list, empty when it is null. */
  function GetSections(metadata: Metadata): (r: seq<Section>)
    ensures metadata.sections.None? ==> r == []
    ensures metadata.sections.Some? ==> r == metadata.sections.value
  {
    if metadata.sections.None? then [] else metadata.sections.value
  }

  /** `JsonDocument.__init__` on an already loaded record: the headings are the sections' headings, in order. */
  function Load(metadata: Metadata): (doc: JsonDocument)
    ensures doc.abstractText == GetAbstract(metadata) && doc.sections == GetSections(metadata)
    ensures |doc.headings| == |doc.sections|
    ensures forall i :: 0 <= i < |doc.sections| ==> doc.headings[i] == doc.sections[i].heading
  {
    var sections := GetSections(metadata);
    JsonDocument(GetAbstract(metadata), sections, seq(|sections|, i requires 0 <= i < |sections| => sections[i].heading))
  }

  /**
   * `json_doc.abstract if json_doc.abstract else None`, the wrapper's
   * `abstract` being `abstractText` here: the parser's abstract counts only
   * when it is present and non-empty.
   */
  function UsableAbstract(doc: JsonDocument): Option<string>
  {
    if doc.abstractText.Some? && doc.abstractText.value != "" then doc.abstractText else None
  }

  /** The parser's abstract is usable exactly when `abstractText` holds a non-empty string. */
  lemma UsableAbstractOfRecord(metadata: Metadata)
    ensures UsableAbstract(Load(metadata)).Some? <==> metadata.abstractText.Value? && metadata.abstractText.value != ""
    ensures UsableAbstract(Load(metadata)).Some? ==> UsableAbstract(Load(metadata)).value == metadata.abstractText.value
  {
  }
}
