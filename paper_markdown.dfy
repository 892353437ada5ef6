/** The text `generate_structured_paper` produces: the evidence each section
    is given, the excerpt block and prompt sent to the language model, the
    section blocks, the numbered reference list and the whole Markdown
    document. The language model is a total function from prompt to reply:
    `_query_llm` turns every failure into a reply string of its own. */
module PaperMarkdown {
  import opened Text
  import opened KnowledgeBase

  /** `section_heads`, in document order. */
  const SectionHeads: seq<string> :=
    ["Abstract", "Introduction", "Related Work", "Methodology", "Results", "Discussion", "Conclusion"]

  /** How many chunks each section is offered: `knowledge_base[:3]`. */
  const EvidencePerSection: nat := 3

  /** The chunks offered to a section. The section's name plays no part:
      every section is offered the first three chunks of the knowledge base,
      or all of them when there are fewer. */
  function Evidence(kb: seq<Chunk>): (r: seq<Chunk>)
    ensures |r| == if |kb| < EvidencePerSection then |kb| else EvidencePerSection
    ensures r == kb[..|r|]
  {
    Take(kb, EvidencePerSection)
  }

  /** One excerpt line of the prompt, with its prompt-local id. */
  function Excerpt(id: nat, c: Chunk): string
  {
    "[Source ID: " + NatToString(id) + "]: " + c.text + "\n\n"
  }

  /** `_format_chunks_for_prompt`: the loop appends one excerpt per chunk,
      numbering them from 1. */
  function FormatExcerpts(cs: seq<Chunk>): string
  {
    if cs == [] then "" else FormatExcerpts(cs[..|cs| - 1]) + Excerpt(|cs|, cs[|cs| - 1])
  }

  /** The excerpt block is the excerpts for ids 1..|cs|, in the order of the
      chunks, and "" when there are none. */
  lemma {:induction false} FormatExcerptsNumbersFromOne(cs: seq<Chunk>)
    ensures FormatExcerpts(cs) == Concat(seq(|cs|, k requires 0 <= k < |cs| => Excerpt(k + 1, cs[k])))
  {
    if cs != [] {
      var n := |cs| - 1;
      var init := cs[..n];
      FormatExcerptsNumbersFromOne(init);
      ConcatSnoc(seq(n, k requires 0 <= k < n => Excerpt(k + 1, init[k])), Excerpt(n + 1, cs[n]));
      assert seq(n, k requires 0 <= k < n => Excerpt(k + 1, init[k])) + [Excerpt(n + 1, cs[n])]
          == seq(|cs|, k requires 0 <= k < |cs| => Excerpt(k + 1, cs[k]));
    }
  }

  /** Twelve spaces: the indentation of the prompt's triple-quoted f-string. */
  const Indent: string := "            "

  /** The fixed lines of the prompt, between its three variable parts. */
  const PromptGrounding: string :=
    "You must ground every claim you make with direct evidence from the provided research excerpts."
    + " Weave the citations seamlessly into the narrative."
  const PromptInstructions: string :=
    Indent + "Instructions:\n"
    + Indent + "1. Use the following excerpts from research papers as your sole source of evidence.\n"
    + Indent + "2. For every factual statement, cite the source using the provided ID in brackets, e.g., [1].\n"
    + Indent + "3. Write authoritatively and concisely. This section should be roughly 2-4 paragraphs.\n"

  /** The prompt's opening line, after its leading newline. */
  function PromptOpening(section: string, topic: string): string
  {
    "\n" + Indent + "Write the **" + section + "** section for a two-page research paper on **" + topic + "**.\n"
  }

  /** The fixed text between the opening line and the excerpt block. */
  const PromptMiddle: string :=
    "\n" + Indent + PromptGrounding + "\n" + "\n" + PromptInstructions + "\n" + Indent + "Excerpts:\n" + Indent

  /** The text after the excerpt block: a blank line and the closing line. */
  function PromptClosing(section: string): string
  {
    "\n" + "\n" + Indent + "Begin writing the " + section + " section now:\n" + Indent
  }

  /** The prompt for one section, character for character as the
      triple-quoted f-string builds it. */
  function SectionPrompt(section: string, topic: string, excerpts: string): string
  {
    PromptOpening(section, topic) + PromptMiddle + excerpts + PromptClosing(section)
  }

  /** Of four strings joined, the first is a prefix and the last two are a
      suffix. */
  lemma FourParts(a: string, b: string, c: string, d: string)
    ensures a <= a + b + c + d
    ensures |c + d| <= |a + b + c + d| && (a + b + c + d)[|a + b + c + d| - |c + d|..] == c + d
  {
    assert a + b + c + d == a + (b + c + d);
    assert a + b + c + d == (a + b) + (c + d);
  }

  /** The prompt opens with the line naming the section and the topic, and
      ends with the excerpt block verbatim followed by the closing line that
      names the section again. */
  lemma SectionPromptParts(section: string, topic: string, excerpts: string)
    ensures var p := SectionPrompt(section, topic, excerpts);
      var tail := excerpts + PromptClosing(section);
      PromptOpening(section, topic) <= p
      && |tail| <= |p| && p[|p| - |tail|..] == tail
  {
    FourParts(PromptOpening(section, topic), PromptMiddle, excerpts, PromptClosing(section));
  }

  /** The reply of the language model for one section. */
  function SectionBody(section: string, topic: string, evidence: seq<Chunk>, llm: string -> string): string
  {
    llm(SectionPrompt(section, topic, FormatExcerpts(evidence)))
  }

  /** `f"## {section}\n\n{section_text}\n\n"`. */
  function SectionBlock(section: string, body: string): string
  {
    "## " + section + "\n\n" + body + "\n\n"
  }

  /** Appending the f-string's parts one by one appends the block. */
  lemma AppendSectionBlock(acc: string, section: string, body: string)
    ensures acc + "## " + section + "\n\n" + body + "\n\n" == acc + SectionBlock(section, body)
  {
  }

  /** The blocks the section loop appends for `names`. */
  function SectionsMarkdown(names: seq<string>, topic: string, evidence: seq<Chunk>, llm: string -> string): string
  {
    if names == [] then ""
    else
      var last := names[|names| - 1];
      SectionsMarkdown(names[..|names| - 1], topic, evidence, llm)
      + SectionBlock(last, SectionBody(last, topic, evidence, llm))
  }

  /** The section loop's step: one more name appends one more block to
      whatever precedes the blocks. */
  lemma SectionsMarkdownStep(head: string, names: seq<string>, s: nat, topic: string, evidence: seq<Chunk>, llm: string -> string)
    requires s < |names|
    ensures head + SectionsMarkdown(names[..s + 1], topic, evidence, llm)
      == head + SectionsMarkdown(names[..s], topic, evidence, llm) + SectionBlock(names[s], SectionBody(names[s], topic, evidence, llm))
  {
    var prefix := names[..s + 1];
    assert prefix[..s] == names[..s] && prefix[s] == names[s];
    var blocks := SectionsMarkdown(names[..s], topic, evidence, llm);
    var block := SectionBlock(names[s], SectionBody(names[s], topic, evidence, llm));
    assert SectionsMarkdown(prefix, topic, evidence, llm) == blocks + block;
    assert head + (blocks + block) == head + blocks + block;
  }

  /** Exactly one block per name, in the order of `names`, each holding the
      reply to the prompt built from that name. */
  lemma {:induction false} SectionsMarkdownOneBlockPerName(names: seq<string>, topic: string, evidence: seq<Chunk>, llm: string -> string)
    ensures SectionsMarkdown(names, topic, evidence, llm)
      == Concat(seq(|names|, k requires 0 <= k < |names| =>
           SectionBlock(names[k], SectionBody(names[k], topic, evidence, llm))))
  {
    if names != [] {
      var n := |names| - 1;
      var init := names[..n];
      var last := SectionBlock(names[n], SectionBody(names[n], topic, evidence, llm));
      SectionsMarkdownOneBlockPerName(init, topic, evidence, llm);
      ConcatSnoc(seq(n, k requires 0 <= k < n => SectionBlock(init[k], SectionBody(init[k], topic, evidence, llm))), last);
      assert seq(n, k requires 0 <= k < n => SectionBlock(init[k], SectionBody(init[k], topic, evidence, llm))) + [last]
          == seq(|names|, k requires 0 <= k < |names| => SectionBlock(names[k], SectionBody(names[k], topic, evidence, llm)));
    }
  }

  /** `f"{[i+1]} {title} by {', '.join(authors[:2])}. {url}\n"`: Python
      renders the one-element list `[i+1]` as "[" + str(i+1) + "]". */
  function ReferenceLine(number: nat, c: Chunk): string
  {
    "[" + NatToString(number) + "] " + c.sourceTitle + " by "
    + Join(", ", Take(c.sourceAuthors, 2)) + ". " + c.sourceUrl + "\n"
  }

  /** The reference loop. */
  function ReferenceLines(refs: seq<Chunk>): string
  {
    if refs == [] then "" else ReferenceLines(refs[..|refs| - 1]) + ReferenceLine(|refs|, refs[|refs| - 1])
  }

  /** The reference loop's step: one more reference appends its line to
      whatever precedes the lines. */
  lemma ReferenceLinesStep(head: string, refs: seq<Chunk>, i: nat)
    requires i < |refs|
    ensures head + ReferenceLines(refs[..i + 1]) == head + ReferenceLines(refs[..i]) + ReferenceLine(i + 1, refs[i])
  {
    assert refs[..i + 1][..i] == refs[..i];
  }

  /** Line i, numbered i + 1, is about refs[i]: one line per reference, in
      list order, numbered 1..|refs|. */
  lemma {:induction false} ReferenceLinesNumbered(refs: seq<Chunk>)
    ensures ReferenceLines(refs) == Concat(seq(|refs|, i requires 0 <= i < |refs| => ReferenceLine(i + 1, refs[i])))
  {
    if refs != [] {
      var n := |refs| - 1;
      var init := refs[..n];
      ReferenceLinesNumbered(init);
      ConcatSnoc(seq(n, i requires 0 <= i < n => ReferenceLine(i + 1, init[i])), ReferenceLine(n + 1, refs[n]));
      assert seq(n, i requires 0 <= i < n => ReferenceLine(i + 1, init[i])) + [ReferenceLine(n + 1, refs[n])]
          == seq(|refs|, i requires 0 <= i < |refs| => ReferenceLine(i + 1, refs[i]));
    }
  }

  /** Appending the f-string's parts one by one appends the line. */
  lemma AppendReferenceLine(acc: string, number: nat, c: Chunk)
    ensures acc + "[" + NatToString(number) + "] " + c.sourceTitle + " by "
            + Join(", ", Take(c.sourceAuthors, 2)) + ". " + c.sourceUrl + "\n"
         == acc + ReferenceLine(number, c)
  {
  }

  function Header(topic: string): string
  {
    "# Research Paper: " + topic + "\n\n"
  }

  const ReferencesHeading: string := "## References\n\n"

  /** The document `generate_structured_paper` returns, given the knowledge
      base it reads and the references it ends with. */
  function Paper(topic: string, kb: seq<Chunk>, refs: seq<Chunk>, llm: string -> string): string
  {
    Header(topic) + SectionsMarkdown(SectionHeads, topic, Evidence(kb), llm) + ReferencesHeading + ReferenceLines(refs)
  }

  /** The shape of the document: the title line, then one block per name of
      `section_heads` in that order, each holding the reply to a prompt built
      from that name, the topic and the same evidence, then the reference
      heading and one numbered line per reference in list order. */
  lemma PaperLayout(topic: string, kb: seq<Chunk>, refs: seq<Chunk>, llm: string -> string)
    ensures Paper(topic, kb, refs, llm)
      == "# Research Paper: " + topic + "\n\n"
         + Concat(seq(7, k requires 0 <= k < 7 =>
             "## " + SectionHeads[k] + "\n\n"
             + llm(SectionPrompt(SectionHeads[k], topic, FormatExcerpts(Take(kb, 3)))) + "\n\n"))
         + "## References\n\n"
         + Concat(seq(|refs|, i requires 0 <= i < |refs| => ReferenceLine(i + 1, refs[i])))
  {
    SectionsMarkdownOneBlockPerName(SectionHeads, topic, Evidence(kb), llm);
    ReferenceLinesNumbered(refs);
    assert |SectionHeads| == 7;
    assert seq(7, k requires 0 <= k < 7 =>
             "## " + SectionHeads[k] + "\n\n"
             + llm(SectionPrompt(SectionHeads[k], topic, FormatExcerpts(Take(kb, 3)))) + "\n\n")
        == seq(|SectionHeads|, k requires 0 <= k < |SectionHeads| =>
             SectionBlock(SectionHeads[k], SectionBody(SectionHeads[k], topic, Evidence(kb), llm)));
  }

  /** When the language model answers every prompt with the same text (for
      instance the error text of `_query_llm` when every call fails), each of
      the seven sections holds exactly that text. */
  lemma {:induction false} ConstantReplies(names: seq<string>, topic: string, evidence: seq<Chunk>, llm: string -> string, reply: string)
    requires forall p :: llm(p) == reply
    ensures SectionsMarkdown(names, topic, evidence, llm)
      == Concat(seq(|names|, k requires 0 <= k < |names| => SectionBlock(names[k], reply)))
  {
    if names != [] {
      var n := |names| - 1;
      var init := names[..n];
      ConstantReplies(init, topic, evidence, llm, reply);
      ConcatSnoc(seq(n, k requires 0 <= k < n => SectionBlock(init[k], reply)), SectionBlock(names[n], reply));
      assert seq(n, k requires 0 <= k < n => SectionBlock(init[k], reply)) + [SectionBlock(names[n], reply)]
          == seq(|names|, k requires 0 <= k < |names| => SectionBlock(names[k], reply));
      ConstantReply(names[n], topic, evidence, llm, reply);
    }
  }

  /** The text `_query_llm` returns, ahead of the exception's message, when
      the call fails. */
  const ErrorPrefix: string := "Error generating content: "

  /** When every call fails, each section's body is an error text: it starts
      with ErrorPrefix, whatever the exception's message after it. */
  lemma FailedReplies(names: seq<string>, topic: string, evidence: seq<Chunk>, llm: string -> string)
    requires forall p :: ErrorPrefix <= llm(p)
    ensures forall k :: 0 <= k < |names| ==> ErrorPrefix <= SectionBody(names[k], topic, evidence, llm)
  {
    forall k | 0 <= k < |names|
      ensures ErrorPrefix <= SectionBody(names[k], topic, evidence, llm)
    {
      var prompt := SectionPrompt(names[k], topic, FormatExcerpts(evidence));
      assert ErrorPrefix <= llm(prompt);
    }
  }

  lemma ConstantReply(section: string, topic: string, evidence: seq<Chunk>, llm: string -> string, reply: string)
    requires forall p :: llm(p) == reply
    ensures SectionBody(section, topic, evidence, llm) == reply
  {
    var prompt := SectionPrompt(section, topic, FormatExcerpts(evidence));
    assert llm(prompt) == reply;
  }

  /** The number on line i reads back as i + 1: the references are numbered
      1, 2, ..., |refs| in list order. */
  lemma ReferenceNumbers(refs: seq<Chunk>, i: nat)
    requires i < |refs|
    ensures var digits := NatToString(i + 1);
      ReferenceLine(i + 1, refs[i])[..|digits| + 2] == "[" + digits + "]"
      && ParseDecimal(digits) == i + 1
  {
    NatToStringRoundTrip(i + 1);
    var digits := NatToString(i + 1);
    var head := "[" + digits + "]";
    var tail := " " + refs[i].sourceTitle + " by "
      + Join(", ", Take(refs[i].sourceAuthors, 2)) + ". " + refs[i].sourceUrl + "\n";
    assert ReferenceLine(i + 1, refs[i]) == head + tail;
    assert (head + tail)[..|head|] == head;
  }
}
