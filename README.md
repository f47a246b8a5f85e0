# Study Assistant: a Dafny model of its retrieval pipeline

Study Assistant lets a student upload lecture notes (PDF or PowerPoint) and ask
questions about them. The pipeline has four steps:

1. Extract the text of the document.
2. Cut the text into overlapping chunks.
3. Store the chunks with ids and metadata in a vector collection.
4. On a question, retrieve the most similar chunks, hand them to an answer
   generator, and list the sources the answer drew on.

A second, stand-alone retrieval package builds a FAISS index for one file. It
offers a "precise" top-k search and a "comprehensive" search that turns raw
scores into similarities and keeps those above a threshold.

This project models the decision logic of that pipeline. Embeddings, the
vector databases, the PDF and PPTX reader libraries and the answer generator
are not modelled. Each is either an input or a function passed in:
- a search is a function from a query and a result count to hits;
- a document is the page texts or slide shapes its reader yields, or the
  reader's error message.

Modules:

- `Common` (common.dfy): `Option`, `Result`, `Outcome`, and metadata values.
  A document's content is what the readers make of it.
- `Text` (text.dfy): the parts of Python's `str` and `pathlib` the code relies
  on:
  - `str.isspace` and `strip() == ""` (`IsBlank`);
  - lower-casing;
  - `str(n)`, whose injectivity is proved;
  - `Path.name` and `Path.suffix`.
- `Retrieval` (retrieval.dfy): the retrieval package. It covers:
  - the three-band score normaliser and the threshold filter, as a loop proved
    against `Survivors`;
  - the empty-query guards;
  - chunk documents and their `chunk_id`s;
  - the validation order of the index builder (`function_A`).
- `DocumentProcessor` (document_processor.dfy): the backend's processor.
  - The sliding-window chunker is a loop proved equal to a recursive
    specification. Window count, window contents, chunk lengths,
    reconstruction of the text from the chunks, and overlap are proved about
    that specification.
  - Text assembly for PDF pages and PPTX slides.
  - Dispatch on the file suffix.
- `Store` (vector_store.dfy): the chunk collection. It is a class whose entry
  sequence is appended to by `AddDocuments` and emptied by `ClearCollection`.
  It keeps the invariant that entry `k` has id `doc_k`.
- `Api` (api.dfy): the upload and chat endpoints. They cover validation
  order, the upload metadata, the chat outcome, and a duplicate-free source
  list built by a loop.

The similarity range follows the code, not its documentation. The docstring
of `function_C_comprehensive_retrieval` speaks of similarities in about
[0, 1]. The cosine band maps raw scores in [-1.2, 1.2] to [-0.1, 1.1], and
`Retrieval.Normalize` states that wider range.

## Model

| member | source | states |
|---|---|---|
| Text.BlankAll | backend/document_processor.py:74 | `strip()` leaves nothing exactly when every character is whitespace |
| Text.BlankConcat | backend/document_processor.py:17-21 | a concatenation is blank exactly when both parts are |
| Text.NotBlankAt | backend/document_processor.py:74 | one non-whitespace character makes a string non-blank |
| Text.NatToString | backend/vector_store.py:38 | `str(n)` is a non-empty string of decimal digits, one digit exactly for n < 10 |
| Text.NatToStringInjective | backend/vector_store.py:38 | different numbers render as different strings |
| Text.IsBlank | backend/document_processor.py:74 | `s.strip() == ""`, scanning the characters by index; `Text.BlankAll` states what it means |
| Text.Lower | backend/document_processor.py:49 | lower-casing keeps the length and leaves no ASCII upper-case letter |
| Text.LowerIdempotent | backend/document_processor.py:49 | lower-casing twice is lower-casing once |
| Text.IntToString | backend/main.py:184 | `str(i)` is non-empty and starts with '-' exactly for a negative number |
| Text.LastIndexOf | backend/document_processor.py:49 | `rfind`: a found index holds the character and no later index does; none is found exactly when the character does not occur |
| Text.FileName | ai_study_assistant/study_assistant/retrieval.py:151 | a path's name is its last part, trailing slashes and "." parts not counting: it holds no '/' and is never "." |
| Text.DotPartDropped | backend/main.py:89 | appending "/." to a path changes neither its name nor its suffix, so "x.pdf/." has suffix ".pdf" |
| Text.Suffix | backend/document_processor.py:49 | a suffix is empty or a '.' followed by at least one character that is neither '.' nor '/', and it ends the file name |
| Text.SuffixOfPlainName | backend/document_processor.py:49 | a plain name's suffix starts at its last inner '.' |
| Retrieval.Normalize | ai_study_assistant/study_assistant/retrieval.py:207-212 | every similarity lies in [-0.1, 1.1]; outside the cosine band it is strictly between 0 and 1/2.2; inside it, 2·sim − 1 is the raw score |
| Retrieval.NormalizeDistanceBound | ai_study_assistant/study_assistant/retrieval.py:207-208 | 1/(1+d) is strictly between 0 and 1/2.2 for every distance d > 1.2 |
| Retrieval.CosineBandMonotone | ai_study_assistant/study_assistant/retrieval.py:209-210 | within the cosine band a higher raw score never gives a lower similarity |
| Retrieval.NormalizeDropsPastCosineBand | ai_study_assistant/study_assistant/retrieval.py:207-212 | the mapping is not monotone overall: 1.2 maps to 1.1 but 1.3 maps below 0.5 |
| Retrieval.HighThresholdMeansCosineBand | ai_study_assistant/study_assistant/retrieval.py:207-215 | with threshold ≥ 1/2.2, only a cosine-band raw score ≥ 2·threshold − 1 can reach the threshold |
| Retrieval.Survivors | ai_study_assistant/study_assistant/retrieval.py:194-217 | the filtered result is no longer than the pool and every emitted similarity reaches the threshold |
| Retrieval.KeptIndices | ai_study_assistant/study_assistant/retrieval.py:195-215 | the kept positions are strictly increasing and are exactly the candidates with a score whose similarity reaches the threshold |
| Retrieval.SurvivorsAreKeptCandidates | ai_study_assistant/study_assistant/retrieval.py:194-217 | the j-th survivor is the j-th kept candidate's document paired with its own normalised score: an order-preserving subsequence that skips scoreless candidates |
| Retrieval.ThresholdFilters | ai_study_assistant/study_assistant/retrieval.py:214-215 | the result at a higher threshold is the lower threshold's result filtered by the higher threshold |
| Retrieval.AtLeastIsSubsequence | ai_study_assistant/study_assistant/retrieval.py:214-215 | filtering scored pairs by a threshold gives an order-preserving subsequence |
| Retrieval.ThresholdMonotone | ai_study_assistant/study_assistant/retrieval.py:214-215 | raising the threshold yields a subsequence of the lower threshold's result |
| Retrieval.HighThresholdSurvivors | ai_study_assistant/study_assistant/retrieval.py:207-215 | with threshold ≥ 1/2.2 every survivor came from a cosine-band score ≥ 2·threshold − 1 |
| Retrieval.ComprehensiveRetrieval | ai_study_assistant/study_assistant/retrieval.py:180-217 | the empty query gives no result; otherwise the loop's output is exactly the survivors of the 50-candidate pool, so at most 50 entries |
| Retrieval.ThreeCandidateExample | ai_study_assistant/study_assistant/retrieval.py:194-217 | raw scores 0.1, 2.0, 0.9 at threshold 0.5 keep the first (0.55) and last (0.95) candidates only |
| Retrieval.PreciseRetrieval | ai_study_assistant/study_assistant/retrieval.py:169-177 | the empty query gives no result; otherwise exactly the index's top-k hits, unchanged |
| Retrieval.PreciseAtMostK | ai_study_assistant/study_assistant/retrieval.py:176-177 | when the index returns at most k hits, so does precise retrieval |
| Retrieval.MakeDocuments | ai_study_assistant/study_assistant/retrieval.py:113-124 | one document per chunk in chunk order, chunk i tagged with the source and chunk id "source__i" |
| Retrieval.ChunkIdsDistinct | ai_study_assistant/study_assistant/retrieval.py:122 | different chunk positions of one source get different chunk ids |
| Retrieval.JoinLinesBlank | ai_study_assistant/study_assistant/retrieval.py:101 | a newline-joined text is blank exactly when every joined part is blank |
| Retrieval.NonEmptyTexts | ai_study_assistant/study_assistant/retrieval.py:97-100 | the kept texts are all non-empty and no more than the input |
| Retrieval.NonEmptyTextsMembers | ai_study_assistant/study_assistant/retrieval.py:97-100 | a text is kept exactly when it is one of the inputs and is not empty |
| Retrieval.NonEmptyTextsConcat | ai_study_assistant/study_assistant/retrieval.py:97-100 | the filter distributes over concatenation, so kept texts keep their input order |
| Retrieval.IndexTextBlank | ai_study_assistant/study_assistant/retrieval.py:97-110 | the newline-joined non-empty texts are blank exactly when every input text is blank |
| Retrieval.SlideShapeTextsMembers | ai_study_assistant/study_assistant/retrieval.py:107-109 | a slide's shape texts are exactly the texts its shapes hold |
| Retrieval.ShapeTextsMembers | ai_study_assistant/study_assistant/retrieval.py:106-109 | a text is a shape text exactly when some shape of some slide holds it |
| Retrieval.PdfIndexText | ai_study_assistant/study_assistant/retrieval.py:94-101 | the PDF index text is blank exactly when every page text is |
| Retrieval.PptxIndexText | ai_study_assistant/study_assistant/retrieval.py:103-110 | the presentation's index text is blank exactly when every shape text is |
| Retrieval.PptxIndexTextBlank | ai_study_assistant/study_assistant/retrieval.py:103-110 | the presentation's index text is blank exactly when every text a shape of a slide holds is blank |
| Retrieval.ExtractedText | ai_study_assistant/study_assistant/retrieval.py:141-146 | ".pdf" reads pages and any other accepted suffix reads slides; the text fails exactly when that reader fails, and is blank exactly when every page or shape text is |
| Retrieval.BuildIndex | ai_study_assistant/study_assistant/retrieval.py:127-153 | checks in order, each as an if-and-only-if: missing file (FileNotFoundError), a lower-cased suffix outside .pdf/.pptx/.ppt (ValueError), reader failure, blank text (RuntimeError), no chunks (RuntimeError); a file passing every check is built, and chunk i's document carries the file name and chunk id |
| DocumentProcessor.Slice | backend/document_processor.py:72 | Python slicing with a negative end never yields more than the string |
| DocumentProcessor.ChunkText | backend/document_processor.py:59-80 | the while loop computes exactly the chunk specification `Chunks` (empty text gives no chunks) |
| DocumentProcessor.NonBlankMembers | backend/document_processor.py:74-75 | each kept chunk is one of the windows and is not blank; there are no more chunks than windows |
| DocumentProcessor.NonBlankKeepsAll | backend/document_processor.py:74-75 | when no window is blank, every window is kept |
| DocumentProcessor.NonBlankEmpty | backend/document_processor.py:74-75 | no chunk is kept exactly when every window is blank |
| DocumentProcessor.ChunksAccWindows | backend/document_processor.py:70-77 | the loop from any start adds the non-blank windows from that start, in window order |
| DocumentProcessor.ChunksAreNonBlankWindows | backend/document_processor.py:70-77 | the chunks are the non-blank windows in window order, and all the windows when none is blank |
| DocumentProcessor.WindowCount | backend/document_processor.py:70-77 | the number of windows is ceil(len / step) for step = chunk_size − overlap |
| DocumentProcessor.WindowAt | backend/document_processor.py:71-72 | window k starts at k·step inside the text and is text[k·step : k·step + chunk_size], clamped to the end |
| DocumentProcessor.ChunkLengths | backend/document_processor.py:71-75 | every chunk is non-empty and at most chunk_size long; a window ending inside the text is exactly chunk_size long |
| DocumentProcessor.SmallTextSingleChunk | backend/document_processor.py:70-77 | a non-blank text no longer than the step gives exactly [text] |
| DocumentProcessor.HeadsFrom | backend/document_processor.py:70-77 | the first step characters of each window from a start, concatenated, give the text from that start |
| DocumentProcessor.ChunksCoverText | backend/document_processor.py:70-77 | with 0 ≤ overlap and no blank window, the chunks' first (chunk_size − overlap) characters reconstruct the text |
| DocumentProcessor.WindowsFromOverlap | backend/document_processor.py:70-77 | each full-length window's last overlap characters are the next window's first overlap characters |
| DocumentProcessor.ConsecutiveChunksOverlap | backend/document_processor.py:70-77 | with no blank window, consecutive full-length chunks share exactly overlap characters |
| DocumentProcessor.NonBlankTextHasChunk | backend/document_processor.py:74-75 | with 0 ≤ overlap < chunk_size, a text that is not blank gives at least one chunk |
| DocumentProcessor.NoSpaceTextKeepsAllWindows | backend/document_processor.py:74-75 | a text without whitespace keeps every window |
| DocumentProcessor.FifteenHundredCharsGiveFourChunks | backend/tests/test_document_processor.py:11-17 | 1500 characters at size 500 and overlap 100 give 4 chunks |
| DocumentProcessor.TwoHundredDigitsChunks | backend/tests/test_document_processor.py:34-41 | 200 digits at size 50 and overlap 10 give 5 chunks: four of 50 characters and a last one of 40 |
| DocumentProcessor.SmallTextExample | backend/tests/test_document_processor.py:26-32 | "Small text" at size 100 and overlap 20 gives exactly that text as the one chunk |
| DocumentProcessor.ExtractTextFromPdf | backend/document_processor.py:12-26 | the loop builds the page-by-page text: a header with the 1-based original page number, then the text, for each page with text |
| DocumentProcessor.HeadersOpenWithDash | backend/document_processor.py:21-36 | the page and slide headers start with a newline and a dash |
| DocumentProcessor.PdfTextBlank | backend/document_processor.py:17-21 | the PDF text is blank exactly when no page has text, since every page with text brings its header |
| DocumentProcessor.ExtractTextFromPptx | backend/document_processor.py:28-44 | the loops build a header per slide, then each shape's text with a newline |
| DocumentProcessor.PptxTextBlank | backend/document_processor.py:34-39 | the PPTX text is blank exactly when there are no slides |
| DocumentProcessor.Dispatch | backend/document_processor.py:47-56 | ".pdf" selects the PDF extractor and ".pptx" the PPTX one after lower-casing; anything else is refused with "Unsupported file format: " and the suffix |
| DocumentProcessor.ProcessDocument | backend/document_processor.py:47-56 | the unsupported-format error occurs exactly for other suffixes; a readable document gives its assembled text |
| DocumentProcessor.TextFileUnsupported | backend/tests/test_document_processor.py:43-46 | "test.txt" is refused with "Unsupported file format: .txt" |
| DocumentProcessor.LegacyPowerPointUnsupported | backend/document_processor.py:49-56 | a ".ppt" file is refused by the backend processor |
| Store.DocIdInjective | backend/vector_store.py:38 | different positions get different ids "doc_n" |
| Store.SequentialIdsDistinct | backend/vector_store.py:37-38 | a collection whose entry k has id doc_k has pairwise distinct ids |
| Store.DefaultMetadata | backend/vector_store.py:41-42 | without metadata, chunk i gets {"chunk_id": i} |
| Store.NewEntries | backend/vector_store.py:37-50 | one entry per chunk, each holding its own chunk and its own metadata, with pairwise distinct ids |
| Store.AppendKeepsSequentialIds | backend/vector_store.py:37-50 | appending with ids doc_{count+i} keeps entry k's id doc_k |
| Store.SuccessiveAdds | backend/vector_store.py:37-50 | two adds in a row store the same entries as one add of both chunk lists |
| Store.VectorStore.constructor | backend/vector_store.py:11-21 | a new collection is empty and valid |
| Store.VectorStore.AddDocuments | backend/vector_store.py:24-55 | an empty chunk list changes nothing; otherwise chunk i is appended with id doc_{count+i} and its given or default metadata; earlier entries are unchanged and the size grows by the chunk count; a metadata list of the wrong length is refused |
| Store.VectorStore.ClearCollection | backend/vector_store.py:77-89 | the collection becomes empty and stays valid |
| Store.VectorStore.GetCollectionCount | backend/vector_store.py:91-93 | reports the number of stored entries |
| Store.AddTwoToThree | backend/vector_store.py:24-93 | two chunks without metadata added to three entries become doc_3 and doc_4 with chunk ids 0 and 1; the count is 5, then 0 after a clear |
| Api.UploadMetadata | backend/main.py:126 | chunk i of an upload gets {"filename": name, "chunk_id": i} |
| Api.PlanUpload | backend/main.py:86-123 | a refusal before the save is a 400; any other refusal is a 400 or a 500 after the save; an indexed upload has at least one chunk and none of its chunks is blank |
| Api.DefaultSettingsNeverLoseText | backend/config.py:13-14 | the configured 1000/200 settings satisfy 0 ≤ overlap < chunk_size, so an upload under them is never refused for "no chunks" |
| Api.UploadChecks | backend/main.py:86-123 | an upload is indexed exactly when it has a filename, a .pdf/.pptx suffix, a readable document, non-blank text and some chunks; the name and suffix refusals come before the file is saved |
| Api.UploadNeverHitsUnsupportedFormat | backend/main.py:89-104 | a processing failure after the suffix check is always a reader failure, never the processor's unsupported-format error |
| Api.NoChunksUnreachable | backend/main.py:113-123 | with 0 ≤ overlap < chunk_size, "Failed to create chunks" is never raised |
| Api.Upload | backend/main.py:79-142 | a refused upload returns its error and leaves the collection unchanged; an accepted one appends the chunks with their upload metadata and reports the chunk count |
| Api.SourceLabel | backend/main.py:184 | a missing filename shows as "Unknown" and a missing chunk id as "N/A" |
| Api.Labels | backend/main.py:182-184 | there is at most one label per metadata entry |
| Api.LabelsSnoc | backend/main.py:182-184 | a further entry adds its label exactly when it is truthy |
| Api.Dedup | backend/main.py:185-186 | the labels with later repetitions dropped; `Api.DedupSpec` states what it keeps and in which order |
| Api.DedupSnoc | backend/main.py:185-186 | a further label is added exactly when it is not yet listed |
| Api.IndexOf | backend/main.py:185 | the position of a label's first occurrence |
| Api.DedupSpec | backend/main.py:181-186 | the deduplicated list has the same labels as the input, each once, in first-occurrence order |
| Api.BuildSources | backend/main.py:181-186 | the loop computes the deduplicated labels of the truthy metadata entries |
| Api.SourcesSpec | backend/main.py:181-186 | a source is listed exactly when some truthy entry has that label, and none is listed twice |
| Api.LabelSource | backend/main.py:182-184 | every label comes from a truthy entry |
| Api.LabelListed | backend/main.py:182-184 | every truthy entry's label is among the labels |
| Api.LabelsOfFourHits | backend/main.py:182-184 | an entry without metadata is skipped and repeated entries give repeated labels |
| Api.DedupOfRepeat | backend/main.py:185-186 | a repeated label is listed once |
| Api.SourcesExample | backend/main.py:181-186 | two hits of the same chunk plus one without metadata and one without filename give two sources, the latter "Unknown (Chunk N/A)" |
| Api.Chat | backend/main.py:144-193 | a blank query gets 400; an empty collection gets the fixed upload prompt without a search; no hits gets the fixed not-found answer; otherwise the generated answer (with history iff history is non-empty) and the deduplicated sources |

## Left out

- Embeddings (`HybridEmbeddings`, `SentenceTransformer`) and nearest-neighbour search are outside the model. They are foreign ML libraries. A search is an opaque function from a query and a count to hits.
- FAISS and Chroma are outside the model: persistence, `save_local`/`load_local`, the uuid-named index directory, and the `PersistentClient` path. This is disk I/O and randomness.
- The PyPDF2, pypdf and python-pptx readers are foreign libraries. Their output is an input: the page texts, the slides' shape texts (absent for shapes without a text attribute), or the error message they raise.
- `RecursiveCharacterTextSplitter` is a library whose algorithm is not part of this model. `Retrieval.BuildIndex` takes the splitter as a function parameter.
- Raw scores are exact reals, not IEEE doubles. The `float(abs(raw_score))` fallback for scores that are not numbers is not modelled, because it depends on Python dynamic typing.
- Lower-casing covers ASCII letters only. Python's Unicode case mapping of file suffixes is not modelled.
- Chroma's own checks are not modelled, apart from a metadata list whose length differs from the chunk list's. `Store.VectorStore.AddDocuments` refuses that case without modelling Chroma's exact exception.
- The upload endpoint's `os.path.join` and file copy are not modelled. The saved file is read back under the same name.
- Exceptions other than a reader failure inside upload are not modelled. Nor is chat's catch-all 500 handler, since no modelled step raises in chat.
- The answer generator (Gemini and HuggingFace wrappers, prompts) is not modelled. `Api.Chat` records the query, the documents and the history it would be asked with.
- The `/status`, `/health` and `/clear` endpoints are not modelled beyond the collection operations they call. Nor is the deletion loop over uploaded files in `/clear`, nor routing, CORS and async handling.
- `generation.py`, `gemini_rag.py`, `app.py`, the frontend, `logger.py` and the rest of `config.py` are not part of this model. The configured chunk settings (1000, 200) appear as `Api.DefaultSettings`, which `Api.DefaultSettingsNeverLoseText` is about.
- `DocumentProcessor.ChunkText` requires chunk_size − overlap > 0 for every text. The source returns [] for empty text whatever the settings, but for non-empty text with chunk_size − overlap ≤ 0 its loop never advances and never ends. The configured settings meet it.
- `Store.VectorStore.Valid` keeps ids sequential only for collections changed through this class. A collection persisted on disk by earlier runs is not modelled.
