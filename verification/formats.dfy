/**
  Formatting resolved sections as a response: JSON (kept opaque), or a header line followed by a
  fixed eight-line block per section, joined with newlines.
 */
module Formats {
  import opened Common
  import opened Strings
  import opened ManifestWriter
  import opened Resolver

  /** A response body: the JSON document, left unserialised, or the text of joined lines. */
  datatype Body = Json(sections: seq<Resolved>, totalTokens: int) | Plain(text: string)

  datatype Formatted = Formatted(body: Body, contentType: string)

  function TokensOf(r: Resolved): int
  {
    r.section.tokenCount
  }

  const SectionOpen := "--- section: "
  const SectionClose := " ---"

  /** The first line: the section count and the token total. */
  function HeaderLine(count: nat, totalTokens: int): string
  {
    "<!-- llmsmap-txt fetch | " + NatToString(count) + " sections | " + IntToString(totalTokens) + " tokens -->"
  }

  /** The eight lines written for one section. */
  function SectionLines(s: Resolved): (r: seq<string>)
    ensures |r| == 8
  {
    [ "",
      SectionOpen + s.section.path + SectionClose,
      "title: " + s.section.title,
      "tokens: " + NatToString(s.section.tokenCount),
      "lastUpdated: " + s.section.lastUpdated,
      "---",
      "",
      s.content ]
  }

  /** The section blocks in order. */
  function Blocks(sections: seq<Resolved>): (r: seq<string>)
    ensures |r| == 8 * |sections|
  {
    if |sections| == 0 then [] else SectionLines(sections[0]) + Blocks(sections[1..])
  }

  /** The lines of a non-JSON response. */
  function ResponseLines(sections: seq<Resolved>): seq<string>
  {
    [HeaderLine(|sections|, Sum(sections, TokensOf))] + Blocks(sections)
  }

  /** `formatResponse`. */
  function FormatResponse(sections: seq<Resolved>, format: string): (r: Formatted)
    ensures format == "json" <==> r.body.Json?
    ensures r.body.Json? ==> r.body.sections == sections && r.contentType == "application/json"
    ensures r.body.Json? ==> r.body.totalTokens == Sum(sections, TokensOf)
    ensures r.body.Plain? ==> r.body.text == Join(ResponseLines(sections), "\n")
    ensures r.body.Plain? ==> (r.contentType == "text/plain" <==> format == "txt")
    ensures r.body.Plain? && format != "txt" ==> r.contentType == "text/markdown"
  {
    var totalTokens := Sum(sections, TokensOf);
    if format == "json" then Formatted(Json(sections, totalTokens), "application/json")
    else
      Formatted(Plain(Join(ResponseLines(sections), "\n")), if format == "txt" then "text/plain" else "text/markdown")
  }

  /** The markdown and text bodies are the same; only the content type differs. */
  lemma TextAndMarkdownAgree(sections: seq<Resolved>, format: string)
    requires format != "json"
    ensures FormatResponse(sections, format).body == FormatResponse(sections, "md").body
  {
  }

  lemma {:induction false} BlocksAt(sections: seq<Resolved>, i: nat)
    requires i < |sections|
    ensures Blocks(sections)[8 * i..8 * i + 8] == SectionLines(sections[i])
  {
    if i > 0 {
      BlocksAt(sections[1..], i - 1);
      assert Blocks(sections)[8..] == Blocks(sections[1..]);
    }
  }

  /**
    The response has one header line and eight lines per section, so the `i`-th section's block
    sits at a fixed offset, and its header line gives back its path.
   */
  lemma ResponseLayout(sections: seq<Resolved>, i: nat)
    requires i < |sections|
    ensures var ls := ResponseLines(sections);
      && |ls| == 1 + 8 * |sections|
      && ls[1 + 8 * i..9 + 8 * i] == SectionLines(sections[i])
      && SectionPath(ls[2 + 8 * i]) == Some(sections[i].section.path)
  {
    var ls := ResponseLines(sections);
    BlocksAt(sections, i);
    assert ls[1..] == Blocks(sections);
    assert ls[1 + 8 * i..9 + 8 * i] == Blocks(sections)[8 * i..8 * i + 8];
    SectionPathRoundTrip(sections[i].section.path);
  }

  /** With no sections, the response is the header line alone, saying 0 sections and 0 tokens. */
  lemma ResponseEmpty()
    ensures ResponseLines([]) == [HeaderLine(0, 0)]
    ensures FormatResponse([], "md").body == Plain(HeaderLine(0, 0))
  {
  }

  /** Reading the path back from a section's opening line. */
  function SectionPath(line: string): Option<string>
  {
    if StartsWith(line, SectionOpen) && |line| >= |SectionOpen| + |SectionClose| && EndsWith(line, SectionClose)
    then Some(line[|SectionOpen|..|line| - |SectionClose|])
    else None
  }

  lemma SectionPathRoundTrip(p: string)
    ensures SectionPath(SectionOpen + p + SectionClose) == Some(p)
  {
    var line := SectionOpen + p + SectionClose;
    assert line[..|SectionOpen|] == SectionOpen;
    assert line[|line| - |SectionClose|..] == SectionClose;
    assert line[|SectionOpen|..|line| - |SectionClose|] == p;
  }
}
