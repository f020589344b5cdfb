# Retrieval-augmented support chatbot: retrieval and ingestion core in Dafny

This project models the parts of a retrieval-augmented customer-support chatbot
that the repository writes itself. The vector store, the embedding model, the
language model and the text splitter are third-party libraries; here they are
parameters.

- **Answer assembly** (`backend/rag_pipeline.py`, module `RagPipeline` in
  `rag_pipeline.dfy`):
  - Retrieved chunks are rendered into the numbered grounding context (`format_docs`).
  - Candidates are kept when their distance is at most 0.8. When none is kept,
    the top two are used instead.
  - The answer comes from the language model, which is a parameter
    `string -> string` applied to the rendered prompt.
  - An answer that contains the refusal sentinel, in any letter case, gets no
    sources.
  - Otherwise the sources are the chunks deduplicated on `(source, page)`
    (`deduplicate_sources`). The first occurrence wins and its snippet is the
    first 300 characters of the text.
  - `build_chain` refuses a store that holds no records.
- **Document selection during ingestion** (`backend/ingest.py`, module
  `Ingestion` in `ingestion.dfy`):
  - `load_documents` walks the data folder, given as a sequence of entries.
  - It skips folders and files whose lower-cased extension is not one of the
    five supported ones.
  - It runs the matching loader, a parameter that may fail, and stamps every
    document with the file's name and full path.
  - It concatenates the results in walk order.
  - `ingest` returns early when nothing was loaded. Otherwise it splits the
    documents with chunk size 1000 and overlap 150, then writes and persists
    the chunks. The vector store is a class that logs each batch written to it.

Supporting modules:
- `wrappers.dfy`: Option and Result.
- `strings.dfy`: ASCII lower-casing, substring search, `str.join`, slicing, and
  the decimal rendering of numbers together with its inverse.
- `documents.dfy`: documents and their `source`/`path`/`page` metadata.

Python's insertion-ordered `dict` in `deduplicate_sources` is modelled as a
Dafny `map` plus the sequence of its keys in insertion order.

Points where the model records what the code does rather than a stronger
guarantee:
- `ingest` returns `None` both when nothing was loaded and when it stored
  chunks; only the printed message differs. The model returns `NoDocuments` or
  `Stored(documents, chunks)` to say which return was taken.
- `ingest` never clears the store. It calls `Chroma.from_documents` on the
  persist directory, and whether that replaces or appends to earlier contents
  is up to the library. The model records each write as a new batch.
- `rag_answer` asks the store for 6 candidates but never checks how many it
  returns. The model proves that the context is never longer than the results
  and is empty only when the results are.

## Model

| member | source | states |
|---|---|---|
| Strings.NatToStringRoundTrip | backend/rag_pipeline.py:37 | the decimal rendering used for block numbers and pages is a digit string, has no leading zero, is a single digit for numbers below 10, and reads back as the same number |
| Strings.JoinSnoc | backend/rag_pipeline.py:43 | joining one more part appends the separator and that part, except that a single part is joined to itself |
| Strings.JoinEmptyIff | backend/rag_pipeline.py:43 | when no part is empty, the joined string is empty exactly when there are no parts |
| Strings.Truncate | backend/rag_pipeline.py:62 | `s[:n]` is a prefix of `s` of length min(len(s), n) |
| Strings.Lower | backend/rag_pipeline.py:114 | lower-casing keeps the length, turns each upper-case ASCII letter into its lower-case letter, keeps every other character, and leaves no upper-case letter |
| Strings.LowerFoldsCase | backend/rag_pipeline.py:114 | two strings that are equal up to the case of their letters, character by character, lower-case to the same string |
| RagPipeline.FormatDocs | backend/rag_pipeline.py:29-43 | the loop that collects one block per document, followed by the join, computes the formatted context |
| RagPipeline.BlocksNumbered | backend/rag_pipeline.py:31-41 | there is exactly one block per document, in input order; the k-th block (from 0) is the document's block numbered first + k |
| RagPipeline.SourceDisplayShape | backend/rag_pipeline.py:33-39 | a missing source shows as "unknown"; without a page the header is the source alone; with page p it is the source then " (page N)", where N is a decimal numeral without leading zero for p + 1 |
| RagPipeline.BlockShape | backend/rag_pipeline.py:41 | the block of document i starts with "[i]" with i in decimal without leading zero, then " Source: " and the header, then a newline and the document's text |
| RagPipeline.FormatContextEmptyIff | backend/rag_pipeline.py:43 | the context is the empty string exactly when there are no documents |
| RagPipeline.FormatContextSnoc | backend/rag_pipeline.py:32-43 | appending a document appends its block, numbered one past the previous count, after a blank line (or alone when it is the first) |
| RagPipeline.Cite | backend/rag_pipeline.py:51-63 | a citation carries the document's (source, page) key and its path ("" when missing); the snippet is a prefix of the text of length min(len, 300) |
| RagPipeline.DeduplicateSources | backend/rag_pipeline.py:46-65 | filling the insertion-ordered map and listing its values yields the deduplicated citations |
| RagPipeline.DedupSnocKeys | backend/rag_pipeline.py:55-63 | one more document adds its key to the cited keys and no other key |
| RagPipeline.DedupUnique | backend/rag_pipeline.py:55-65 | no two citations share a (source, page) key |
| RagPipeline.DedupComplete | backend/rag_pipeline.py:50-65 | a key is cited if and only if some input document carries it |
| RagPipeline.DedupEmptyIff | backend/rag_pipeline.py:50-65 | there is a citation exactly when there is an input document |
| RagPipeline.LaterDuplicateIgnored | backend/rag_pipeline.py:57 | a document whose key already appeared earlier leaves the citations unchanged |
| RagPipeline.LastIsFirstOccurrence | backend/rag_pipeline.py:57 | an appended document is the first of its key exactly when its key is not yet cited |
| RagPipeline.FirstOccurrencesListed | backend/rag_pipeline.py:55-57 | the first-occurrence indices are increasing and are exactly the indices whose key no earlier document carries |
| RagPipeline.FirstOccurrencesSpec | backend/rag_pipeline.py:50-65 | there are as many citations as first-occurrence indices, and citation k is built from the document at the k-th of them |
| RagPipeline.DedupKeepsFirstOccurrences | backend/rag_pipeline.py:50-65 | some increasing list holds exactly the indices at which a key first appears, and citation k is built from the document at the k-th of them (first wins, order of first appearance) |
| RagPipeline.DedupProvenance | backend/rag_pipeline.py:50-65 | every citation is built from one of the documents it was computed from |
| RagPipeline.Passing | backend/rag_pipeline.py:98-101 | the filtered list is never longer than the results |
| RagPipeline.ListsPassingSnoc | backend/rag_pipeline.py:98-101 | one more candidate extends the increasing list of passing indices by its own index exactly when its score is at most 0.8 |
| RagPipeline.PassingIndicesListed | backend/rag_pipeline.py:99-100 | the passing indices are increasing and are exactly the indices whose score is at most 0.8 |
| RagPipeline.PassingIndicesSpec | backend/rag_pipeline.py:98-101 | the filtered list has one document per passing index, and its k-th document is the one at the k-th passing index |
| RagPipeline.PassingExactly | backend/rag_pipeline.py:96-101 | some increasing list holds exactly the indices with score at most 0.8, and the filtered list is the documents at those indices, in order |
| RagPipeline.PassingEmptyIff | backend/rag_pipeline.py:98-104 | nothing passes the filter exactly when every score is above 0.8 |
| RagPipeline.SelectContextSpec | backend/rag_pipeline.py:96-105 | if some score is at most 0.8 the context documents are the filtered ones, otherwise they are the first min(2, n) documents; they are empty only when the results are, and never more than the results |
| RagPipeline.RenderPrompt | backend/rag_pipeline.py:10-21 | the prompt is, in order and with nothing else: the fixed instructions and the "<context>" line, the context, the closing "</context>" tag and the "Question: " label, then the question |
| RagPipeline.SentinelAnyCase | backend/rag_pipeline.py:114 | the sentinel phrase is detected in any letter case and at any position in the answer |
| RagPipeline.Respond | backend/rag_pipeline.py:114-119 | the answer text is returned unchanged; the sources are empty exactly when the answer mentions the sentinel or there was no context; otherwise they are the deduplicated citations of the context documents; every source is the citation of a context document |
| RagPipeline.BuildChain | backend/rag_pipeline.py:84-85 | fails with the "run ingestion first" message exactly when the store's count is 0; otherwise returns a chain over that store and that language model |
| RagPipeline.RagAnswer | backend/rag_pipeline.py:89-119 | queries 6 candidates, filters and falls back, formats the context, asks the language model with the rendered prompt, and replies as Respond does for that answer and context |
| Ingestion.LoaderFor | backend/ingest.py:29-35 | an extension has a loader exactly when it is one of .pdf, .txt, .docx, .md, .csv, and each of them has its own loader |
| Ingestion.DispatchIgnoresCase | backend/ingest.py:69-76 | extension matching ignores case: a file whose extension equals a supported one up to letter case is read by that extension's loader |
| Ingestion.StampAll | backend/ingest.py:85-87 | stamping keeps the number of documents, each text and page, and sets source to the file name and path to the full path |
| Ingestion.LoadDocuments | backend/ingest.py:48-93 | fails with "Data folder not found" when the folder is absent; otherwise walks the entries, skipping, loading, stamping and extending, and fails at the first loader error |
| Ingestion.LoadFailureFinal | backend/ingest.py:79-82 | after a loader fails, later entries change nothing: the walk ends with that failure |
| Ingestion.LoadedDocumentsStamped | backend/ingest.py:85-90 | every loaded document has as source and path the name and full path of a file in the walk that has a supported extension |
| Ingestion.LoadWalkConcat | backend/ingest.py:62-93 | walking two parts one after the other gives their documents concatenated in order, none dropped or reordered |
| Ingestion.SupportedFiles | backend/ingest.py:62-76 | an entry is handed to a loader exactly when it is a file whose lower-cased extension is supported |
| Ingestion.NoSupportedFiles | backend/ingest.py:62-76 | a walk without a file of supported extension hands no entry to a loader |
| Ingestion.LoadWalkSnoc | backend/ingest.py:62-90 | one more entry has the same effect on two walks that give the same result |
| Ingestion.LoadWalkSkipped | backend/ingest.py:64-73 | a folder entry or a file with an unsupported extension adds nothing |
| Ingestion.LoadWalkSkipsUnsupported | backend/ingest.py:62-73 | removing every folder and unsupported file from the walk does not change the result |
| Ingestion.NoSupportedFileNoDocuments | backend/ingest.py:58-93 | an existing folder with no supported file loads to an empty list, not an error |
| Ingestion.VectorStore.FromDocuments | backend/ingest.py:127-131 | writing chunks adds exactly that batch to the store's log |
| Ingestion.VectorStore.Persist | backend/ingest.py:134 | persisting marks the store persisted and writes nothing |
| Ingestion.Ingest | backend/ingest.py:96-136 | a load error propagates with the store untouched; no documents returns early with the store untouched; otherwise exactly the splitter's output for size 1000 and overlap 150 is written as one batch and persisted |

## Left out

- The embedding model, the vector store (its on-disk format, `similarity_search_with_score`, `_collection.count`), the Groq language model with its model name and temperature, and the output parser are parameters, not models. `get_embeddings` in both files only builds an embedding object and is not part of this model.
- `RecursiveCharacterTextSplitter` is a parameter. Chunk length and overlap guarantees cannot be stated, because the splitting code is not part of this model. The model only states that 1000 and 150 are passed.
- The format loaders (PDF, text, Word, Markdown, CSV) are one parameter that returns documents or fails. Their parsing and the text loader's UTF-8 encoding are not modelled.
- Real directory walking (`Path.exists`, `rglob`, `is_file`, `suffix`, `name`) is replaced by a folder value that holds the entries in walk order. `DATA_DIR` and `PERSIST_DIR` (backend/config.py) become that folder's path and the store object.
- All `print` logging is left out.
- Documents are values. The loader's documents have their metadata dictionaries changed in place; the model rebuilds the list instead, so aliasing between documents is not captured.
- Metadata keys other than `source`, `path` and `page` are not modelled. A page is a natural number (the loaders' 0-based page index), so non-integer page values are not modelled.
- Strings.Lower: lower-cases ASCII letters only. Python's `str.lower` also folds non-ASCII letters, so a sentinel written with non-ASCII letters is outside the model.
- Distance scores are Dafny `real` values. Floating point (NaN, rounding) is not modelled; only the `<= 0.8` comparison is.
- RagPipeline.RagAnswer: the store query and the language model are total functions, so their exceptions and timeouts are not modelled.
- Ingestion.Ingest: exceptions raised by the splitter, the embedding model or the store write are not modelled.
- The claim that the store holds records after a successful ingestion needs the splitter and the store, so it is not stated.
- The streamlit UI (streamlit_app.py) and the FastAPI health endpoint (backend/app.py) hold no retrieval logic and are not part of this model.
