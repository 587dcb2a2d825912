# ICPE / VRD Analyzer: the retrieval rules, modelled in Dafny

The ICPE / VRD Analyzer is a Streamlit page. A user uploads a regulatory PDF and
describes a change to a site's roads and utilities (VRD). In the offline demo
mode the page answers from the document with a local retrieval-augmented
pipeline. The page is mostly wiring around third-party libraries. This project
models the deterministic rules the script itself contributes, as pure Dafny
functions, and proves lemmas about them:

- **Document text** (`Document`). The page texts of the PDF are joined with
  newlines, and a page without text counts as the empty string. The preview
  shows the first 1000 characters, with `...` added when the text is longer.
  Loading starts from empty text, which a failed read leaves empty.
- **Candidate selection** (`Retrieval`). The hits returned by the index
  search are `(id, score)` pairs, best first. The hits scoring at least 0.5
  are kept in search order; when none does, only the first hit is kept.
- **Context and prompt** (`Prompting`). Each selected chunk becomes
  `[Score <label>] <chunk>`. The entries are joined by blank lines and placed
  in a fixed French prompt template around the user's query.
- **The analyse button** (`Analysis`). A query that is empty after `strip()`
  only warns. In offline mode, empty document text only raises an error. In
  offline mode with a document, the local pipeline runs. Otherwise the
  hosted-API branch runs, and it holds no code. `result_text` is set only on
  the local path.
- **String helpers** (`Text`). Python's `sep.join` is modelled, and so is
  `str.strip()` with the whitespace set of CPython's `str.isspace`.

The foreign calls are parameters of the model: the text splitter's chunks, the
index's search hits, the score formatting and the text generator.

## Model

| member | source | states |
|---|---|---|
| `Text.Join` | script.py:51 | a join's length is the sum of the parts' lengths plus one separator between each pair of neighbours (n parts, n−1 separators) |
| `Text.JoinPartAt` | script.py:51 | part i appears verbatim at its offset: the earlier parts, each followed by one separator |
| `Text.JoinSeparatorAfter` | script.py:51 | exactly one separator follows every part but the last |
| `Text.JoinLayout` | script.py:51 | both facts together: each part sits verbatim at its offset, with one separator after every part but the last |
| `Text.JoinSnoc` | script.py:51 | joining one more part appends one separator and that part |
| `Text.IsSpace` | script.py:95 | the characters `strip()` removes, as CPython's `str.isspace` lists them: on ASCII exactly tab through carriage return, the separators 0x1C-0x1F and the space; the zero-width space and the byte-order mark are not among them |
| `Text.TrimStart` | script.py:95 | the result is a suffix of the input, everything dropped is whitespace, and the result does not start with whitespace |
| `Text.TrimEnd` | script.py:95 | the result is a prefix of the input, everything dropped is whitespace, and the result does not end with whitespace |
| `Text.Strip` | script.py:95 | `strip()` never lengthens its input and keeps no whitespace at either end; its full contract is given by `Text.StripIsSlice` and `Text.StripDropsOnlyWhitespace` |
| `Text.StripIsSlice` | script.py:95 | `strip()` returns the contiguous slice of the input that starts right after its leading whitespace; what is kept has no whitespace at either end |
| `Text.StripDropsOnlyWhitespace` | script.py:95 | every character `strip()` drops, before or after what it keeps, is whitespace |
| `Text.StripEmptyIffBlank` | script.py:95 | `strip()` gives the empty string exactly when every character is whitespace, in both directions |
| `Text.StripIdempotent` | script.py:112 | stripping an already stripped text changes nothing |
| `Document.PageText` | script.py:51 | a page whose `extract_text()` gives nothing counts as `""`; otherwise its text is used unchanged |
| `Document.PageTexts` | script.py:51 | one text per page, in page order |
| `Document.DocumentText` | script.py:49-51 | `read_pdf_file`: the length is the total page length plus one newline between neighbouring pages, and no pages give `""`; the page-by-page layout is given by `Document.DocumentTextLayout` |
| `Document.DocumentTextLayout` | script.py:51 | the document text holds each page's text verbatim at its offset, with one newline after every page but the last; its length is the total page length plus n−1 |
| `Document.DocumentTextSmall` | script.py:51 | no pages give `""`, and one page gives exactly that page's text |
| `Document.DocumentTextAddPage` | script.py:51 | adding a page to a non-empty list adds one newline and that page's text at the end |
| `Document.Preview` | script.py:59 | the preview is at most 1003 characters long and starts with the first min(len, 1000) characters of the text; it ends with `...` exactly when the text is longer than 1000 characters, and a text of at most 1000 characters is its own preview |
| `Document.PreviewIdempotent` | script.py:59 | the preview of a preview is the preview itself |
| `Document.PreviewSeesOnlyTheStart` | script.py:59 | two long texts that share their first 1000 characters have the same preview |
| `Document.Load` | script.py:53-61 | with no file or a failed read, the document text is `""` and no preview is shown; a readable file gives the joined page texts and their preview |
| `Retrieval.Passing` | script.py:106 | the comprehension keeps a hit exactly when it is one of the hits and its score is ≥ 0.5 (inclusive), and never returns more hits than it was given |
| `Retrieval.PassingCounts` | script.py:106 | every passing hit is kept exactly as often as it occurs among the hits, and failing hits never: none dropped, none duplicated |
| `Retrieval.PassingIsSubsequence` | script.py:106 | the kept hits are a subsequence of the search hits, in the same order |
| `Retrieval.PassingNonEmpty` | script.py:106-107 | the comprehension is non-empty exactly when some hit scores ≥ 0.5 |
| `Retrieval.Select` | script.py:105-108 | the selection has between 1 and len(hits) entries and is a subsequence of the hits; when some hit passes, it holds exactly the passing hits with their multiplicities; otherwise it is exactly `[first hit]` |
| `Retrieval.SelectedAreHits` | script.py:105-108 | with at most 5 hits, every selected candidate is a search hit and there are 1 to 5 of them |
| `Retrieval.ThresholdIsInclusive` | script.py:106 | a hit scoring exactly 0.5 is selected |
| `Retrieval.SortedHeadFails` | script.py:105-107 | when hits come best first and the first hit fails the threshold, no hit passes |
| `Retrieval.SortedPassingIsPrefix` | script.py:105-106 | when hits come best first, the passing hits are a prefix of them |
| `Retrieval.SelectionIsTopPrefix` | script.py:105-108 | when hits come best first, the selection is a prefix of them and every selected hit scores at least as high as every hit left out; the fallback keeps the top-scoring hit |
| `Prompting.Entry` | script.py:109 | one entry starts with `"[Score "`, ends with the chunk's text verbatim, and is exactly as long as `"[Score "`, the score label, `"] "` and the chunk together |
| `Prompting.Entries` | script.py:109 | one entry per selected hit, in selection order, each `"[Score " + label(s) + "] " + chunks[i]` |
| `Prompting.Context` | script.py:109 | the context's length is the entries' total length plus one `"\n\n"` between neighbours, and a single entry is the whole context; the entry-by-entry layout is given by `Prompting.ContextLayout` |
| `Prompting.ContextLayout` | script.py:109 | the context holds each entry verbatim at its offset with `"\n\n"` after every entry but the last; its length counts exactly count−1 separators |
| `Prompting.ContextOfOne` | script.py:108-109 | a single selected hit gives exactly its own entry as the context |
| `Prompting.ContextStartsWithFirstEntry` | script.py:109 | a non-empty selection gives a context that begins with the first selected hit's entry |
| `Prompting.ParsePrompt` | script.py:110 | reading a prompt back yields a query of the requested length, or nothing when the template's fixed parts are missing |
| `Prompting.Prompt` | script.py:110 | the prompt holds the query and the context verbatim, between the template's fixed parts: reading it back with `ParsePrompt` gives both; the converse is `Prompting.ParsePromptSound` |
| `Prompting.ParsePromptSound` | script.py:110 | any text that reads back as a query and a context is exactly the prompt built from them |
| `Prompting.PromptInjective` | script.py:110 | two prompts whose queries have the same length are equal only when their queries and contexts are equal |
| `Analysis.Decide` | script.py:94-116 | with the button pressed: a query that is blank after stripping gives a warning in either mode; in offline mode, empty document text gives an error; in offline mode with a document, the local pipeline runs; in API mode, the API branch runs; without a press, nothing happens. Each outcome holds exactly under its condition |
| `Analysis.Analyse` | script.py:93-117 | outside the local path there is no prompt and `result_text` stays `""`; on the local path the prompt is exactly the template around the query and the context of `Select(hits)`, and `result_text` is the stripped generator output |
| `Analysis.LocalPromptIsGrounded` | script.py:102-112 | on the local path the prompt is the template around the query and the context of the selected hits; the context opens with the first selected entry, and it is exactly the first hit's entry when no hit passes |
| `Analysis.GuardStopsEarly` | script.py:93-99 | a blank query (in either mode), or offline mode without document text, yields only the warning or the error, no prompt and an empty `result_text` |
| `Analysis.NoReadableUploadIsNoDocument` | script.py:53-99 | offline mode with no file or an unreadable file always stops at the error for a query with content |
| `Analysis.TextlessPagesPassGuard` | script.py:51-101 | two pages without a text layer give the text `"\n"`, which passes the offline guard and reaches the local path for any query with content |
| `Analysis.ModeDecidesBranch` | script.py:94-116 | once the query has content: API mode always takes the API branch, and offline mode with document text always runs the local pipeline |

## Left out

- The Streamlit page setup, CSS, sidebar, widgets and messages are left out: they are presentation. The warning, error and success messages appear only as the `Decision` taken.
- PDF parsing with PyPDF2 (`PdfReader`, `extract_text`) is a foreign call. The model takes each page's extracted text (or its absence) as input and joins it. A read that raises is the `Unreadable` upload.
- Chunking with langchain's `RecursiveCharacterTextSplitter` is left out, because its algorithm is not part of this model. The chunks are an input of `Analysis.Analyse`.
- SentenceTransformer embeddings and the faiss `IndexFlatIP` build and search are foreign numerics. The search result is an input: a sequence of `(id, score)` hits. Sortedness by descending score is assumed only by the lemmas that speak about the best hit.
- faiss pads its answer with id −1 when the index holds fewer than 5 vectors. Ids are modelled as naturals, so padding rows are not represented. When the index holds at least one vector, padding scores sit far below 0.5 and the first row is a real hit, so the selection never reaches them.
- Analysis.Analyse: its `requires` asks, on the local path, for at least one hit whose ids all name a chunk, so there is at least one chunk. The run it leaves out is a document whose text passes the guard but gives the splitter no chunk, such as a PDF of pages without a text layer, whose text is `"\n"`. script.py has no branch for it. `embeddings.shape[1]` raises at script.py:78 before any search. If it did not, the first row would be faiss's −1 padding, and `chunks[i]` at script.py:109 would not name a real chunk. The model does not represent that exception.
- The transformers tokenizer, model and `pipeline` call are a foreign call. They are the parameter `generate`, modelled as a function of the prompt, so sampling nondeterminism is not modelled. The `.strip()` of its output is modelled.
- `@st.cache_resource` memoisation of `init_local_rag` is framework caching and is not modelled.
- Scores are modelled as `real`, not float32. The `{s:.2f}` rendering is the parameter `scoreLabel`.
- The OpenAI branch and the PDF export are placeholders with no code. They appear only as the `RemoteApi` decision and the `result_text` value the export would test.
- script.py has no fixed-window chunker, no minimum answer length, no removal of echoed prompt text and no index cache keyed by document, so the model has none either. It fixes the threshold at 0.5 and the neighbour count at 5. Its fallback keeps the first search hit, which is the top-scoring one when hits come best first (`Retrieval.SelectionIsTopPrefix`).
- The offline guard in script.py tests only whether the document text is empty (`not pdf_text`). Whitespace-only document text passes the guard, and the model takes the local path for it exactly as the source does. What the splitter then makes of it is out of scope, as the `Analysis.Analyse` line above says.
- Lengths count Unicode scalar values (Dafny's `char`), as Python's `len` counts code points.
