/**
 * The parsed form of a markdown document as the verification extractor
 * receives it. Parsing itself (headings, fences, the executable-block
 * classifier) is not part of this model: a document arrives already split
 * into sections, and each code block arrives with its `is_executable` flag.
 */
module Parser {
  import opened Wrappers

  /** A file path, copied through unchanged. */
  type Path = string

  /** A fenced code block: its raw text and the classifier's verdict. */
  datatype CodeBlock = CodeBlock(content: string, isExecutable: bool)

  /** A section: heading text, 1-indexed heading line, code blocks in document order. */
  datatype Section = Section(name: string, startLine: nat, codeBlocks: seq<CodeBlock>)

  datatype ParsedDoc = ParsedDoc(path: Path, sections: seq<Section>)

  /**
   * `ParsedDoc::get_section`, assumed to be a lookup by case-sensitive exact
   * heading text that returns the first section so named.
   */
  function GetSection(sections: seq<Section>, name: string): (r: Option<Section>)
    ensures r.None? <==> forall i :: 0 <= i < |sections| ==> sections[i].name != name
    ensures r.Some? ==> exists i :: 0 <= i < |sections| && sections[i] == r.value && FirstNamed(sections, name, i)
  {
    if sections == [] then None
    else if sections[0].name == name then
      assert FirstNamed(sections, name, 0);
      Some(sections[0])
    else
      var r := GetSection(sections[1..], name);
      assert r.Some? ==> exists i :: 0 <= i < |sections| && sections[i] == r.value && FirstNamed(sections, name, i) by {
        if r.Some? {
          var i :| 0 <= i < |sections| - 1 && sections[1..][i] == r.value && FirstNamed(sections[1..], name, i);
          assert FirstNamed(sections, name, i + 1);
        }
      }
      r
  }

  /** Section `i` is the first one named `name`. */
  ghost predicate FirstNamed(sections: seq<Section>, name: string, i: int) {
    && 0 <= i < |sections|
    && sections[i].name == name
    && forall j :: 0 <= j < i ==> sections[j].name != name
  }
}
