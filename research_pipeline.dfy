/** `ResearchPaperPipeline`: the object that holds one run's state and the
    steps that change it. The network (arXiv search, PDF download and
    reading, the language model) enters as parameters: the search results as
    a value, the download-and-read step and the language model as total
    functions. */
module ResearchPipeline {
  import opened Text
  import opened SentenceSplit
  import opened KnowledgeBase
  import opened Citations
  import opened PaperMarkdown

  /** Every chunk is longer than MinChunkLength and traceable to `texts`. */
  ghost predicate ChunksValid(kb: seq<Chunk>, texts: seq<PaperText>)
  {
    forall c :: c in kb ==> |c.text| > MinChunkLength && Traceable(c, texts)
  }

  /** Every element of `xs` occurs in `ys`. */
  predicate Within(xs: seq<Chunk>, ys: seq<Chunk>)
  {
    forall c :: c in xs ==> c in ys
  }

  lemma WithinGrow(xs: seq<Chunk>, ys: seq<Chunk>, more: seq<Chunk>)
    requires Within(xs, ys)
    ensures Within(xs, ys + more)
  {
  }

  /** The chunks `build_knowledge_base` appends keep the knowledge base
      valid. */
  lemma BuildKeepsChunksValid(kb: seq<Chunk>, texts: seq<PaperText>)
    requires ChunksValid(kb, texts)
    ensures ChunksValid(kb + KnowledgeBaseOf(texts), texts)
  {
    KnowledgeBaseOfValid(texts);
  }

  /** Citing the evidence of a knowledge base keeps every reference a chunk
      of that knowledge base and keeps the references free of repeats. */
  lemma CitedWithin(refs: seq<Chunk>, kb: seq<Chunk>)
    requires Within(refs, kb) && NoDuplicates(refs)
    ensures Within(AddAllCited(refs, Evidence(kb)), kb)
    ensures NoDuplicates(AddAllCited(refs, Evidence(kb)))
  {
    AddAllCitedKeeps(refs, Evidence(kb));
  }

  class ResearchPaperPipeline {
    var topic: string
    var papers: seq<ArxivEntry>
    var fullTexts: seq<PaperText>
    var knowledgeBase: seq<Chunk>
    var references: seq<Chunk>

    /** What every step keeps true: each chunk of the knowledge base is longer
        than MinChunkLength and is a piece of some `full_texts` entry whose
        metadata it carries; the references hold no two equal chunks, and each
        of them is a chunk of the knowledge base. */
    ghost predicate Valid()
      reads this
    {
      ChunksValid(knowledgeBase, fullTexts) && NoDuplicates(references) && Within(references, knowledgeBase)
    }

    constructor (topic: string)
      ensures Valid()
      ensures this.topic == topic
      ensures papers == [] && fullTexts == [] && knowledgeBase == [] && references == []
    {
      this.topic := topic;
      papers := [];
      fullTexts := [];
      knowledgeBase := [];
      references := [];
    }

    /** `search_literature`: `found` stands for the list of results the arXiv
        query returns. */
    method SearchLiterature(found: seq<ArxivEntry>)
      requires Valid()
      modifies this`papers
      ensures Valid()
      ensures papers == found
    {
      papers := found;
    }

    /** `fetch_and_parse_pdfs`: for each paper, in order, the text of its
        pages joined with a newline after each page is appended to
        `full_texts`; a paper whose download or reading fails is skipped. */
    method FetchAndParsePdfs(fetch: string -> FetchOutcome)
      requires Valid()
      modifies this`fullTexts
      ensures Valid()
      ensures fullTexts == old(fullTexts) + ParsedPapers(papers, fetch)
    {
      var i := 0;
      while i < |papers|
        invariant 0 <= i <= |papers|
        invariant fullTexts == old(fullTexts) + ParsedPapers(papers[..i], fetch)
      {
        var paper := papers[i];
        assert papers[..i + 1][..i] == papers[..i];
        match fetch(paper.pdfUrl) {
          case PagesExtracted(pages) =>
            var text := "";
            var j := 0;
            while j < |pages|
              invariant 0 <= j <= |pages|
              invariant text == PagesText(pages[..j])
            {
              assert pages[..j + 1][..j] == pages[..j];
              text := text + pages[j] + "\n";
              j := j + 1;
            }
            assert pages[..j] == pages;
            fullTexts := fullTexts + [PaperText(paper.title, paper.authors, paper.published, paper.summary,
                                                text, paper.pdfUrl, paper.entryId)];
          case FetchFailed(_) =>
        }
        i := i + 1;
      }
      assert papers[..i] == papers;
      TraceableExtend(knowledgeBase, old(fullTexts), ParsedPapers(papers, fetch));
      assert ChunksValid(knowledgeBase, fullTexts);
    }

    /** `build_knowledge_base`: appends, paper by paper in `full_texts` order
        and piece by piece in split order, every piece longer than
        MinChunkLength, tagged with its paper. Nothing already in the
        knowledge base changes. */
    method BuildKnowledgeBase()
      requires Valid()
      modifies this`knowledgeBase
      ensures Valid()
      ensures knowledgeBase == old(knowledgeBase) + KnowledgeBaseOf(fullTexts)
    {
      var p := 0;
      while p < |fullTexts|
        invariant 0 <= p <= |fullTexts|
        invariant knowledgeBase == old(knowledgeBase) + KnowledgeBaseOf(fullTexts[..p])
      {
        var paperInfo := fullTexts[p];
        var chunks := Split(paperInfo.fullText);
        ghost var before := knowledgeBase;
        var c := 0;
        while c < |chunks|
          invariant 0 <= c <= |chunks|
          invariant knowledgeBase == before + TagPieces(chunks[..c], paperInfo)
        {
          assert chunks[..c + 1][..c] == chunks[..c];
          if |chunks[c]| > MinChunkLength {
            knowledgeBase := knowledgeBase + [Chunk(chunks[c], paperInfo.title, paperInfo.authors,
                                                    paperInfo.url, paperInfo.entryId)];
          }
          c := c + 1;
        }
        assert chunks[..c] == chunks;
        assert fullTexts[..p + 1][..p] == fullTexts[..p];
        p := p + 1;
      }
      assert fullTexts[..p] == fullTexts;
      BuildKeepsChunksValid(old(knowledgeBase), fullTexts);
      WithinGrow(references, old(knowledgeBase), KnowledgeBaseOf(fullTexts));
    }

    /** `_format_chunks_for_prompt`: the excerpts of `chunks`, numbered from 1
        in the order given. */
    method FormatChunksForPrompt(chunks: seq<Chunk>) returns (formatted: string)
      ensures formatted == FormatExcerpts(chunks)
    {
      formatted := "";
      var idx := 0;
      while idx < |chunks|
        invariant 0 <= idx <= |chunks|
        invariant formatted == FormatExcerpts(chunks[..idx])
      {
        assert chunks[..idx + 1][..idx] == chunks[..idx];
        formatted := formatted + "[Source ID: " + NatToString(idx + 1) + "]: " + chunks[idx].text + "\n\n";
        idx := idx + 1;
      }
      assert chunks[..idx] == chunks;
    }

    /** The citation loop of `generate_structured_paper` for one section:
        each offered chunk, in order, is appended to `references` unless an
        equal chunk is already there. */
    method CiteChunks(relevantChunks: seq<Chunk>)
      modifies this`references
      ensures references == AddAllCited(old(references), relevantChunks)
    {
      var j := 0;
      while j < |relevantChunks|
        invariant 0 <= j <= |relevantChunks|
        invariant references == AddAllCited(old(references), relevantChunks[..j])
      {
        AddAllCitedStep(old(references), relevantChunks, j);
        var chunk := relevantChunks[j];
        if chunk !in references {
          references := references + [chunk];
        }
        j := j + 1;
      }
      assert relevantChunks[..j] == relevantChunks;
    }

    /** The reference loop of `generate_structured_paper`: one numbered line
        per reference, in list order, appended to `markdown`. */
    method AppendReferenceList(markdown: string) returns (paperMarkdown: string)
      ensures paperMarkdown == markdown + ReferenceLines(references)
    {
      paperMarkdown := markdown;
      var i := 0;
      while i < |references|
        invariant 0 <= i <= |references|
        invariant paperMarkdown == markdown + ReferenceLines(references[..i])
      {
        ReferenceLinesStep(markdown, references, i);
        var ref := references[i];
        AppendReferenceLine(paperMarkdown, i + 1, ref);
        paperMarkdown := paperMarkdown + "[" + NatToString(i + 1) + "] " + ref.sourceTitle + " by "
                         + Join(", ", Take(ref.sourceAuthors, 2)) + ". " + ref.sourceUrl + "\n";
        i := i + 1;
      }
      assert references[..i] == references;
    }

    /** The section loop of `generate_structured_paper`: for each name of
        `section_heads`, in order, the reply to that section's prompt is
        appended to `markdown` as a block, and the chunks the prompt was
        grounded in are cited. */
    method WriteSections(markdown: string, llm: string -> string) returns (paperMarkdown: string)
      modifies this`references
      ensures paperMarkdown == markdown + SectionsMarkdown(SectionHeads, topic, Evidence(knowledgeBase), llm)
      ensures references == AddAllCited(old(references), Evidence(knowledgeBase))
    {
      var sectionHeads := SectionHeads;
      paperMarkdown := markdown;
      ghost var evidence := Evidence(knowledgeBase);
      var s := 0;
      while s < |sectionHeads|
        invariant 0 <= s <= |sectionHeads|
        invariant paperMarkdown == markdown + SectionsMarkdown(sectionHeads[..s], topic, evidence, llm)
        invariant references == if s == 0 then old(references) else AddAllCited(old(references), evidence)
      {
        var section := sectionHeads[s];
        var relevantChunks := Take(knowledgeBase, 3);
        var excerpts := FormatChunksForPrompt(relevantChunks);
        var sectionText := llm(SectionPrompt(section, topic, excerpts));
        assert excerpts == FormatExcerpts(evidence);
        assert sectionText == SectionBody(section, topic, evidence, llm);
        SectionsMarkdownStep(markdown, sectionHeads, s, topic, evidence, llm);
        AppendSectionBlock(paperMarkdown, section, sectionText);
        paperMarkdown := paperMarkdown + "## " + section + "\n\n" + sectionText + "\n\n";
        CiteChunks(relevantChunks);
        if s > 0 {
          AddAllCitedIdempotent(old(references), evidence);
        }
        s := s + 1;
      }
      assert sectionHeads[..s] == SectionHeads;
    }

    /** `generate_structured_paper`: the title line, one block per section of
        `section_heads`, each with the reply to a prompt grounded in the first
        three chunks of the knowledge base, those chunks added to the
        references unless already there, then the numbered reference list. */
    method GenerateStructuredPaper(llm: string -> string) returns (paperMarkdown: string)
      requires Valid()
      modifies this`references
      ensures Valid()
      ensures references == AddAllCited(old(references), Evidence(knowledgeBase))
      ensures old(references) <= references
      ensures old(references) == [] ==> |references| <= EvidencePerSection
      ensures paperMarkdown == Paper(topic, knowledgeBase, references, llm)
    {
      paperMarkdown := "# Research Paper: " + topic + "\n\n";
      paperMarkdown := WriteSections(paperMarkdown, llm);
      CitedWithin(old(references), knowledgeBase);
      AddAllCitedKeeps(old(references), Evidence(knowledgeBase));
      if old(references) == [] {
        FreshReferences(Evidence(knowledgeBase));
      }
      paperMarkdown := AppendReferenceList(paperMarkdown + "## References\n\n");
    }
  }
}
