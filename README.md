# Research paper pipeline — a Dafny model

This project models the core of `ResearchPaperPipeline` from
`research_pipeline.py`. The class holds one run's state: the topic, the arXiv
results, the extracted full texts, the knowledge base of citable chunks and the
references. The model covers these steps:

- **Fetching.** `fetch_and_parse_pdfs` turns each result whose PDF can be read
  into a `full_texts` entry. The entry's text is its pages, each followed by a
  newline.
- **Building the knowledge base.** `build_knowledge_base` cuts each text with
  `re.split(r'(?<=[.!?])\s+(?=[A-Z])', text)`. It keeps every piece longer than
  50 characters and tags it with its paper's title, authors, url and entry id.
- **Writing the paper.** `generate_structured_paper` builds the Markdown
  document:
  - a title line;
  - one block per name of `section_heads`, holding the model's reply to a
    prompt built from that name, the topic and the first three chunks;
  - those chunks appended to `references` unless an equal one is already there;
  - a numbered reference list.
- **Formatting excerpts.** `_format_chunks_for_prompt` numbers the excerpts
  given to the prompt.

The class is a Dafny `class` whose fields are sequences. Each step is a
method; each step that changes a field has a `modifies` clause naming it.
Each loop of the source is a loop with invariants. Each method is proved
against a specification function on sequences. These are the modules:

- **`KnowledgeBase`**: `ParsedPapers`, `TagPieces` and `KnowledgeBaseOf`.
- **`Citations`**: `AddAllCited`.
- **`PaperMarkdown`**: `FormatExcerpts`, `SectionsMarkdown`, `ReferenceLines`
  and `Paper`.
- **`SentenceSplit`**: the regular-expression split, as the function `Split`.
  Lemmas prove three things about it:
  - it round-trips;
  - it cuts only at sentence boundaries;
  - no piece holds a further boundary.

  Together these determine it uniquely.
- **`Text`**: Python's `"".join`, `", ".join`, `xs[:n]` and `str(n)`.

The class invariant `Valid()` holds after every step. It says:

- every chunk is longer than 50 characters;
- every chunk is a piece of the split text of a `full_texts` entry, and carries
  that entry's metadata;
- the references hold no two equal chunks;
- every reference is a chunk of the knowledge base.

The outside world enters as parameters:

- the arXiv search result list, as a value;
- PDF download and text extraction, as a total function from url to
  `FetchOutcome` (the pages, or a failure);
- the language model, as a total function from prompt to reply.

`_query_llm` catches every exception and returns a string, so the model call
never fails.

## Model

| member | source | states |
|---|---|---|
| `ResearchPipeline.ResearchPaperPipeline.constructor` | research_pipeline.py:19-24 | The topic is stored and the four lists start empty; the invariant holds. |
| `ResearchPipeline.ResearchPaperPipeline.SearchLiterature` | research_pipeline.py:26-34 | `papers` becomes the search result list; nothing else changes. |
| `ResearchPipeline.ResearchPaperPipeline.FetchAndParsePdfs` | research_pipeline.py:36-60 | `full_texts` grows by exactly `ParsedPapers(papers, fetch)`: one entry per readable paper, in order, text = pages each followed by "\n"; failed papers are skipped; the invariant is kept. |
| `KnowledgeBase.PagesTextEachPageThenNewline` | research_pipeline.py:45-47 | The accumulated text is the concatenation of `page + "\n"` over the pages in order. |
| `KnowledgeBase.ParsedPapers` | research_pipeline.py:38-60 | No more entries than papers, and every entry is the record of a paper whose fetch succeeded, built from that paper's pages. |
| `KnowledgeBase.ParsedPapersIncludes` | research_pipeline.py:38-57 | Conversely, every paper whose fetch succeeds contributes its record, built from its pages. |
| `KnowledgeBase.ParsedPapersAppend` | research_pipeline.py:38-60 | Entries follow `papers` order: the entries for a + b are those for a followed by those for b. |
| `KnowledgeBase.AllFetchesFailed` | research_pipeline.py:59-60 | When every download or extraction fails, nothing is appended. |
| `SentenceSplit.RunEnd` | research_pipeline.py:67 | The greedy `\s+` run starting at i: everything up to the result is whitespace, the character at the result is not. |
| `SentenceSplit.CutAtIsBoundary` | research_pipeline.py:67 | The scanner matches at i exactly when `.`/`!`/`?` precedes i, a whitespace run starts at i and an A-Z letter follows the run. |
| `SentenceSplit.BoundaryEndsRun` | research_pipeline.py:67 | Any boundary starting at i ends where the maximal whitespace run ends, and the scanner matches there. |
| `SentenceSplit.Split` | research_pipeline.py:67 | `re.split` always returns at least one piece (the empty text gives `[""]`). |
| `SentenceSplit.SplitRoundTrip` | research_pipeline.py:67 | Putting the removed whitespace runs back between the pieces gives the original text. |
| `SentenceSplit.SplitCutsAtBoundaries` | research_pipeline.py:67 | Every cut is right after `.`, `!` or `?`, removes a non-empty whitespace run and is right before an upper-case letter. |
| `SentenceSplit.SplitPiecesHaveNoBoundary` | research_pipeline.py:67 | No piece contains a further boundary. |
| `SentenceSplit.SplitUnique` | research_pipeline.py:67 | Any decomposition that rejoins to the text, cuts only at boundaries and has boundary-free pieces is exactly the split. |
| `SentenceSplit.SplitPiecesNoLonger` | research_pipeline.py:67 | No piece is longer than the text. |
| `ResearchPipeline.ResearchPaperPipeline.BuildKnowledgeBase` | research_pipeline.py:62-77 | `knowledge_base` becomes its old value followed by `KnowledgeBaseOf(full_texts)`: old entries unchanged, new ones paper by paper, piece by piece; the invariant is kept. |
| `KnowledgeBase.TagPiecesKeepsLongPieces` | research_pipeline.py:68-76 | A chunk is produced exactly when its text is a piece longer than 50 and its other four fields are the paper's title, authors, url and entry id; at most one chunk per piece. |
| `KnowledgeBase.TagPiecesAppend` | research_pipeline.py:68-76 | Chunks come out in split order: the chunks of a + b are those of a followed by those of b. |
| `KnowledgeBase.ShortTextContributesNothing` | research_pipeline.py:67-69 | A paper whose text has at most 50 characters, the empty text included, contributes no chunk. |
| `KnowledgeBase.KnowledgeBaseOfValid` | research_pipeline.py:64-76 | Every built chunk is longer than 50 and is a piece of the split text of a paper whose metadata it carries. |
| `KnowledgeBase.KnowledgeBaseOfAppend` | research_pipeline.py:64-76 | Chunks come out in `full_texts` order: the chunks of a + b are those of a followed by those of b. |
| `KnowledgeBase.FetchedChunksTraceable` | research_pipeline.py:36-76 | Every chunk built after fetching carries the title, authors, PDF url and entry id of an arXiv result whose fetch succeeded. |
| `ResearchPipeline.BuildKeepsChunksValid` | research_pipeline.py:62-76 | Appending the built chunks keeps every knowledge-base chunk long enough and traceable. |
| `ResearchPipeline.ResearchPaperPipeline.FormatChunksForPrompt` | research_pipeline.py:124-129 | The loop's result is `FormatExcerpts(chunks)`. |
| `PaperMarkdown.FormatExcerptsNumbersFromOne` | research_pipeline.py:124-129 | The excerpt block is the concatenation over k = 1..n of `"[Source ID: k]: " + text + "\n\n"` in input order, and "" for no chunks. |
| `Text.NatToString` | research_pipeline.py:128 | `str(n)`: at least one character, all decimal digits, no leading zero. |
| `Text.NatToStringRoundTrip` | research_pipeline.py:128 | Reading the digits of `str(n)` back gives n. |
| `Text.Take` | research_pipeline.py:90 | `xs[:n]` is a prefix of `xs` of length min(n, \|xs\|). |
| `PaperMarkdown.Evidence` | research_pipeline.py:90 | Each section gets the first min(3, \|knowledge_base\|) chunks; the section name plays no part. |
| `ResearchPipeline.ResearchPaperPipeline.WriteSections` | research_pipeline.py:86-115 | After the section loop the text is the old text followed by `SectionsMarkdown(section_heads, ...)`, and `references` is `AddAllCited(old references, evidence)`. |
| `PaperMarkdown.SectionsMarkdownOneBlockPerName` | research_pipeline.py:86-110 | Exactly one `"## S\n\n" + llm(prompt_S) + "\n\n"` block per name, in order. |
| `PaperMarkdown.SectionPromptParts` | research_pipeline.py:93-107 | The prompt `SectionPrompt` builds (the f-string, character for character) opens with the line naming the section and the topic, and ends with the excerpt block verbatim followed by the closing line naming the section again. |
| `PaperMarkdown.ConstantReplies` | research_pipeline.py:109-110 | When every call returns the same text, every section holds exactly that text. |
| `PaperMarkdown.FailedReplies` | research_pipeline.py:140-141 | When every call fails, every section's body starts with "Error generating content: ", whatever the exception's message. |
| `ResearchPipeline.ResearchPaperPipeline.CiteChunks` | research_pipeline.py:113-115 | `references` becomes `AddAllCited(old references, chunks)`. |
| `Citations.AddAllCitedKeeps` | research_pipeline.py:113-115 | Old references stay as a prefix; a chunk is cited afterwards exactly when it was cited before or was offered; no duplicates are introduced. |
| `Citations.AddAllCitedAppendsFirstOccurrences` | research_pipeline.py:113-115 | What gets appended is the offered chunks not cited before, first occurrences only, in the order offered. |
| `Citations.AddAllCitedKnown` | research_pipeline.py:113-115 | Offering only chunks that are already cited changes nothing. |
| `Citations.AddAllCitedIdempotent` | research_pipeline.py:86-115 | Offering the same chunks again changes nothing, so seven sections with the same evidence cite as one would. |
| `Citations.FreshReferences` | research_pipeline.py:113-115 | From empty references the result has no duplicates, has at most as many entries as offered, and equals the offered chunks when they are distinct. |
| `ResearchPipeline.CitedWithin` | research_pipeline.py:112-115 | Citing the evidence keeps every reference a chunk of the knowledge base and keeps references duplicate-free. |
| `ResearchPipeline.ResearchPaperPipeline.AppendReferenceList` | research_pipeline.py:118-120 | The reference loop appends `ReferenceLines(references)`. |
| `PaperMarkdown.ReferenceLinesNumbered` | research_pipeline.py:118-120 | One line per reference, in list order, line i being `ReferenceLine(i + 1, references[i])`. |
| `PaperMarkdown.ReferenceNumbers` | research_pipeline.py:120 | Line i starts with `"[" + str(i+1) + "]"`, and those digits read back as i + 1. |
| `Text.FirstTwoJoined` | research_pipeline.py:120 | `", ".join(authors[:2])` is "", the only author, or the first two joined by ", "; later authors are dropped silently. |
| `ResearchPipeline.ResearchPaperPipeline.GenerateStructuredPaper` | research_pipeline.py:79-122 | The result is `Paper(topic, knowledge_base, references, llm)`; `references` becomes `AddAllCited(old, knowledge_base[:3])`, keeping the old ones as a prefix and holding at most 3 when it started empty; the invariant is kept. |
| `PaperMarkdown.PaperLayout` | research_pipeline.py:82-120 | The document is the title line, the seven section blocks in `section_heads` order, the references heading and the numbered reference lines. |

## Left out

- `search_literature`: the arXiv query, `max_results` and the relevance sort are network calls. The method takes the result list as a parameter.
- `fetch_and_parse_pdfs`: the HTTP download, the status check and PyPDF2 extraction are a function parameter. It returns either every page's text or a failure. A failure part-way through a paper skips that paper, as the `try` does.
- `fetch` is a function of the PDF url, so two results with the same url always get the same outcome. The source downloads each result separately, so one of them could fail and the other succeed. No proved property depends on this.
- `published` is kept as an already formatted string. `strftime("%Y-%m-%d")` is not modelled.
- `_query_llm` is an opaque total function from prompt to reply. The OpenAI call, the `.strip()` of the reply and the error text are inside that function.
- `output_pdf`, `load_dotenv`, the OpenAI client set-up, the `__main__` block and every `print` are output and configuration only.
- `SentenceSplit.IsSpace`: `\s` is modelled as the ASCII whitespace that Python's `\s` matches (tab, line feed, vertical tab, form feed, carriage return, 0x1C-0x1F and space). The non-ASCII Unicode whitespace that Python's `\s` also matches is not modelled.
- `build_knowledge_base` has a `chunk_size` parameter, and `generate_structured_paper` has a `paper_content` variable. The source never uses either, so the model has neither.
- `ResearchPipeline.ResearchPaperPipeline.GenerateStructuredPaper`: its section loop and its reference loop are the helper methods `WriteSections` and `AppendReferenceList`. The per-section citation loop is the helper `CiteChunks`. The loops are the source's; only their grouping into methods differs.

## Behaviour as written

These are places where the code does something other than the pipeline's
prose description. The model follows the code:

- **Equal references.** `chunk not in self.references` compares whole
  dictionaries. So two references are equal only when all five fields are
  equal, not just the text and the source id.
- **Author list.** The reference line joins the first two authors and stops.
  No "et al." is added.
- **Model reply.** The reply is inserted as returned. No bold sub-headers or
  leaked section names are stripped.
- **Failed generation.** A failed model call gives the text that `_query_llm`
  returns for the error, not a fixed placeholder. That text carries the
  exception's message, so it can differ from call to call. `FailedReplies`
  covers the case where every call fails.
