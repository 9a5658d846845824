/**
 * The abstract marker both paragraph variants search for: a line that,
 * lowercased, is exactly `abstract`. The text after the first such line is
 * the candidate abstract.
 */
module Markers {
  import opened Wrappers
  import opened Strings

  /** `line.lower() == 'abstract'`. */
  predicate IsMarker(line: string) {
    Lower(line) == "abstract"
  }

  /** A marker line is exactly eight characters long. */
  lemma MarkerLength(line: string)
    requires IsMarker(line)
    ensures |line| == 8
  {
    assert |Lower(line)| == |"abstract"|;
  }

  /** The index of the first marker line at or after `i`. */
  function FirstMarkerFrom(lines: seq<string>, i: nat): (k: Option<nat>)
    requires i <= |lines|
    ensures k.Some? ==> i <= k.value < |lines| && IsMarker(lines[k.value])
    ensures forall j :: i <= j < |lines| && (k.None? || j < k.value) ==> !IsMarker(lines[j])
    decreases |lines| - i
  {
    if i == |lines| then None
    else if IsMarker(lines[i]) then Some(i)
    else FirstMarkerFrom(lines, i + 1)
  }

  /** The index of the first marker line, if any. */
  function FirstMarker(lines: seq<string>): (k: Option<nat>)
    ensures k.Some? ==> k.value < |lines| && IsMarker(lines[k.value])
    ensures forall j :: 0 <= j < |lines| && (k.None? || j < k.value) ==> !IsMarker(lines[j])
  {
    FirstMarkerFrom(lines, 0)
  }

  /** Some line is a marker. */
  predicate HasMarker(lines: seq<string>) {
    exists i :: 0 <= i < |lines| && IsMarker(lines[i])
  }

  /**
   * The lines after the first marker line, joined with newlines; empty when
   * there is no marker or the marker is the last line.
   */
  function TextAfterMarker(lines: seq<string>): (text: string)
    ensures FirstMarker(lines).None? ==> text == ""
    ensures FirstMarker(lines) == Some(|lines| - 1) ==> text == ""
  {
    match FirstMarker(lines)
    case None => ""
    case Some(i) => Join("\n", lines[i + 1..])
  }

  /**
   * The text after the marker is the tail of the joined lines, right after
   * the marker line's newline.
   */
  lemma TextAfterMarkerIsTail(lines: seq<string>)
    ensures |TextAfterMarker(lines)| <= |Join("\n", lines)|
    ensures Join("\n", lines)[|Join("\n", lines)| - |TextAfterMarker(lines)|..] == TextAfterMarker(lines)
    ensures FirstMarker(lines).Some? && FirstMarker(lines).value + 1 < |lines| ==>
      Join("\n", lines) == Join("\n", lines[..FirstMarker(lines).value + 1]) + "\n" + TextAfterMarker(lines)
  {
    match FirstMarker(lines)
    case None =>
    case Some(i) =>
      if i + 1 < |lines| {
        JoinAt("\n", lines, i + 1);
      } else {
        assert lines[i + 1..] == [];
      }
  }

  /** Text after a marker can only exist when some line is a marker. */
  lemma TextNeedsMarker(lines: seq<string>)
    requires TextAfterMarker(lines) != ""
    ensures HasMarker(lines) && FirstMarker(lines).Some?
  {
  }

  /** Lines holding a marker never join to the empty text. */
  lemma MarkedTextNotEmpty(lines: seq<string>)
    requires HasMarker(lines)
    ensures |Join("\n", lines)| >= 8
  {
    var i :| 0 <= i < |lines| && IsMarker(lines[i]);
    MarkerLength(lines[i]);
    JoinLength("\n", lines, i);
  }
}
