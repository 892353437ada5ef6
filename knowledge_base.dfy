/** The records of the pipeline and the specification of the two steps that
    produce them: reading fetched PDFs into `full_texts` entries, and cutting
    each entry's text into the citable chunks of `knowledge_base`. */
module KnowledgeBase {
  import opened Text
  import opened SentenceSplit

  /** An arXiv search result, as far as the pipeline reads it. */
  datatype ArxivEntry = ArxivEntry(
    title: string,
    authors: seq<string>,
    published: string,
    summary: string,
    pdfUrl: string,
    entryId: string)

  /** What downloading a PDF and reading it with the PDF reader gives: the
      text extracted from each page in order, or a failure of the download,
      of the HTTP status or of the PDF reader. */
  datatype FetchOutcome = PagesExtracted(pages: seq<string>) | FetchFailed(reason: string)

  /** One element of `full_texts`. */
  datatype PaperText = PaperText(
    title: string,
    authors: seq<string>,
    published: string,
    summary: string,
    fullText: string,
    url: string,
    entryId: string)

  /** One element of `knowledge_base`; `references` holds the same records.
      Python compares these dictionaries key by key, which is what the
      structural equality of a datatype does. */
  datatype Chunk = Chunk(
    text: string,
    sourceTitle: string,
    sourceAuthors: seq<string>,
    sourceUrl: string,
    sourceId: string)

  /** A piece must be longer than this to become a chunk. */
  const MinChunkLength: nat := 50

  // ---------------------------------------------------------------------
  // fetch_and_parse_pdfs

  /** `text += page.extract_text() + "\n"` over all pages, from "". */
  function PagesText(pages: seq<string>): string
  {
    if pages == [] then "" else PagesText(pages[..|pages| - 1]) + pages[|pages| - 1] + "\n"
  }

  /** The text of a paper is its pages in order, each followed by a newline. */
  lemma {:induction false} PagesTextEachPageThenNewline(pages: seq<string>)
    ensures PagesText(pages) == Concat(seq(|pages|, k requires 0 <= k < |pages| => pages[k] + "\n"))
  {
    if pages != [] {
      var init := pages[..|pages| - 1];
      PagesTextEachPageThenNewline(init);
      ConcatSnoc(seq(|init|, k requires 0 <= k < |init| => init[k] + "\n"), pages[|pages| - 1] + "\n");
      assert seq(|init|, k requires 0 <= k < |init| => init[k] + "\n") + [pages[|pages| - 1] + "\n"]
          == seq(|pages|, k requires 0 <= k < |pages| => pages[k] + "\n");
    }
  }

  /** The `full_texts` entry for a paper whose pages were read. */
  function PaperTextOf(paper: ArxivEntry, pages: seq<string>): PaperText
  {
    PaperText(paper.title, paper.authors, paper.published, paper.summary,
              PagesText(pages), paper.pdfUrl, paper.entryId)
  }

  /** The entries `fetch_and_parse_pdfs` appends for `papers`, in order; a
      paper whose fetch fails contributes none. */
  function ParsedPapers(papers: seq<ArxivEntry>, fetch: string -> FetchOutcome): (r: seq<PaperText>)
    ensures |r| <= |papers|
    ensures forall t :: t in r ==>
      exists k :: 0 <= k < |papers| && fetch(papers[k].pdfUrl).PagesExtracted?
        && t == PaperTextOf(papers[k], fetch(papers[k].pdfUrl).pages)
  {
    if papers == [] then []
    else
      var init := ParsedPapers(papers[..|papers| - 1], fetch);
      var last := papers[|papers| - 1];
      match fetch(last.pdfUrl)
      case PagesExtracted(pages) => init + [PaperTextOf(last, pages)]
      case FetchFailed(_) => init
  }

  /** A paper whose fetch succeeds contributes its entry. */
  lemma {:induction false} ParsedPapersIncludes(papers: seq<ArxivEntry>, fetch: string -> FetchOutcome, k: nat)
    requires k < |papers| && fetch(papers[k].pdfUrl).PagesExtracted?
    ensures PaperTextOf(papers[k], fetch(papers[k].pdfUrl).pages) in ParsedPapers(papers, fetch)
  {
    var n := |papers| - 1;
    if k < n {
      ParsedPapersIncludes(papers[..n], fetch, k);
      assert papers[..n][k] == papers[k];
    }
  }

  /** Entries follow the order of `papers`: the entries for a + b are those
      for a followed by those for b. */
  lemma {:induction false} ParsedPapersAppend(a: seq<ArxivEntry>, b: seq<ArxivEntry>, fetch: string -> FetchOutcome)
    ensures ParsedPapers(a + b, fetch) == ParsedPapers(a, fetch) + ParsedPapers(b, fetch)
    decreases |b|
  {
    if b != [] {
      var b0 := b[..|b| - 1];
      assert (a + b)[..|a + b| - 1] == a + b0;
      assert (a + b)[|a + b| - 1] == b[|b| - 1];
      ParsedPapersAppend(a, b0, fetch);
    } else {
      assert a + b == a;
    }
  }

  /** When every fetch fails, nothing is appended. */
  lemma {:induction false} AllFetchesFailed(papers: seq<ArxivEntry>, fetch: string -> FetchOutcome)
    requires forall k :: 0 <= k < |papers| ==> fetch(papers[k].pdfUrl).FetchFailed?
    ensures ParsedPapers(papers, fetch) == []
  {
    if papers != [] {
      AllFetchesFailed(papers[..|papers| - 1], fetch);
    }
  }

  // ---------------------------------------------------------------------
  // build_knowledge_base

  /** The chunk made from one piece of a paper's text. */
  function ChunkOf(piece: string, paper: PaperText): Chunk
  {
    Chunk(piece, paper.title, paper.authors, paper.url, paper.entryId)
  }

  /** The chunk carries the paper's title, authors, url and entry id. */
  predicate FromPaper(c: Chunk, paper: PaperText)
  {
    c.sourceTitle == paper.title && c.sourceAuthors == paper.authors
    && c.sourceUrl == paper.url && c.sourceId == paper.entryId
  }

  /** The inner loop of `build_knowledge_base` over the pieces of one paper:
      every piece longer than MinChunkLength, in order, tagged with the
      paper. */
  function TagPieces(pieces: seq<string>, paper: PaperText): seq<Chunk>
  {
    if pieces == [] then []
    else
      var last := pieces[|pieces| - 1];
      TagPieces(pieces[..|pieces| - 1], paper)
      + (if |last| > MinChunkLength then [ChunkOf(last, paper)] else [])
  }

  /** A chunk is produced exactly when its text is one of the pieces, that
      piece is longer than MinChunkLength, and the chunk carries the paper's
      metadata; there is at most one chunk per piece. */
  lemma {:induction false} TagPiecesKeepsLongPieces(pieces: seq<string>, paper: PaperText)
    ensures |TagPieces(pieces, paper)| <= |pieces|
    ensures forall c :: c in TagPieces(pieces, paper) <==>
      (c.text in pieces && |c.text| > MinChunkLength && c == ChunkOf(c.text, paper))
  {
    if pieces != [] {
      TagPiecesKeepsLongPieces(pieces[..|pieces| - 1], paper);
      assert pieces == pieces[..|pieces| - 1] + [pieces[|pieces| - 1]];
    }
  }

  /** Pieces earlier in the split give chunks earlier in the list. */
  lemma {:induction false} TagPiecesAppend(a: seq<string>, b: seq<string>, paper: PaperText)
    ensures TagPieces(a + b, paper) == TagPieces(a, paper) + TagPieces(b, paper)
    decreases |b|
  {
    if b != [] {
      var b0 := b[..|b| - 1];
      assert (a + b)[..|a + b| - 1] == a + b0;
      TagPiecesAppend(a, b0, paper);
    } else {
      assert a + b == a;
    }
  }

  lemma {:induction false} TagShortPieces(pieces: seq<string>, paper: PaperText)
    requires forall k :: 0 <= k < |pieces| ==> |pieces[k]| <= MinChunkLength
    ensures TagPieces(pieces, paper) == []
  {
    if pieces != [] {
      TagShortPieces(pieces[..|pieces| - 1], paper);
    }
  }

  /** The chunks one paper contributes. */
  function PaperChunks(paper: PaperText): seq<Chunk>
  {
    TagPieces(Split(paper.fullText), paper)
  }

  /** A paper whose text has at most MinChunkLength characters, and in
      particular one with empty text (split into the single piece ""),
      contributes nothing. */
  lemma ShortTextContributesNothing(paper: PaperText)
    requires |paper.fullText| <= MinChunkLength
    ensures PaperChunks(paper) == []
  {
    SplitPiecesNoLonger(paper.fullText);
    TagShortPieces(Split(paper.fullText), paper);
  }

  /** What `build_knowledge_base` appends for `papers`: each paper's chunks,
      papers in order. */
  function KnowledgeBaseOf(papers: seq<PaperText>): seq<Chunk>
  {
    if papers == [] then [] else KnowledgeBaseOf(papers[..|papers| - 1]) + PaperChunks(papers[|papers| - 1])
  }

  /** The chunk's text is a piece of the text of some paper in `texts`, and
      the chunk carries that paper's metadata. */
  ghost predicate Traceable(c: Chunk, texts: seq<PaperText>)
  {
    exists k :: 0 <= k < |texts| && FromPaper(c, texts[k]) && c.text in Split(texts[k].fullText)
  }

  /** Appending to `full_texts` keeps every chunk traceable. */
  lemma TraceableExtend(chunks: seq<Chunk>, texts: seq<PaperText>, more: seq<PaperText>)
    requires forall c :: c in chunks ==> Traceable(c, texts)
    ensures forall c :: c in chunks ==> Traceable(c, texts + more)
  {
    forall c | c in chunks
      ensures Traceable(c, texts + more)
    {
      var k :| 0 <= k < |texts| && FromPaper(c, texts[k]) && c.text in Split(texts[k].fullText);
      assert (texts + more)[k] == texts[k];
    }
  }

  /** Every chunk built from `papers` is longer than MinChunkLength, and its
      text is a piece of the split text of a paper whose title, authors, url
      and entry id it carries. */
  lemma {:induction false} KnowledgeBaseOfValid(papers: seq<PaperText>)
    ensures forall c :: c in KnowledgeBaseOf(papers) ==> |c.text| > MinChunkLength && Traceable(c, papers)
  {
    if papers != [] {
      var init, last := papers[..|papers| - 1], papers[|papers| - 1];
      KnowledgeBaseOfValid(init);
      TraceableExtend(KnowledgeBaseOf(init), init, [last]);
      assert init + [last] == papers;
      TagPiecesKeepsLongPieces(Split(last.fullText), last);
      forall c | c in PaperChunks(last)
        ensures Traceable(c, papers)
      {
        assert papers[|papers| - 1] == last && FromPaper(c, last);
      }
    }
  }

  /** Appending papers appends their chunks: the knowledge base lists the
      chunks paper by paper in `full_texts` order. */
  lemma {:induction false} KnowledgeBaseOfAppend(a: seq<PaperText>, b: seq<PaperText>)
    ensures KnowledgeBaseOf(a + b) == KnowledgeBaseOf(a) + KnowledgeBaseOf(b)
    decreases |b|
  {
    if b != [] {
      var b0 := b[..|b| - 1];
      assert (a + b)[..|a + b| - 1] == a + b0;
      assert (a + b)[|a + b| - 1] == b[|b| - 1];
      KnowledgeBaseOfAppend(a, b0);
    } else {
      assert a + b == a;
    }
  }

  /** The chunk carries the title, authors, PDF url and entry id of an arXiv
      result. */
  predicate CitesEntry(c: Chunk, entry: ArxivEntry)
  {
    c.sourceTitle == entry.title && c.sourceAuthors == entry.authors
    && c.sourceUrl == entry.pdfUrl && c.sourceId == entry.entryId
  }

  /** Every chunk built from fetched papers comes from a paper whose fetch
      succeeded, and carries that paper's metadata; failed papers contribute
      no chunk. */
  lemma FetchedChunksTraceable(papers: seq<ArxivEntry>, fetch: string -> FetchOutcome)
    ensures forall c :: c in KnowledgeBaseOf(ParsedPapers(papers, fetch)) ==>
      exists k :: 0 <= k < |papers| && fetch(papers[k].pdfUrl).PagesExtracted? && CitesEntry(c, papers[k])
  {
    var texts := ParsedPapers(papers, fetch);
    KnowledgeBaseOfValid(texts);
    forall c | c in KnowledgeBaseOf(texts)
      ensures exists k :: 0 <= k < |papers| && fetch(papers[k].pdfUrl).PagesExtracted? && CitesEntry(c, papers[k])
    {
      var m :| 0 <= m < |texts| && FromPaper(c, texts[m]) && c.text in Split(texts[m].fullText);
      assert texts[m] in texts;
      var k :| 0 <= k < |papers| && fetch(papers[k].pdfUrl).PagesExtracted?
        && texts[m] == PaperTextOf(papers[k], fetch(papers[k].pdfUrl).pages);
      assert CitesEntry(c, papers[k]);
    }
  }
}
