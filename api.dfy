/** The backend's HTTP endpoints for uploading a study document and asking a
    question, as the decisions they take: which error they raise, which
    fixed answer they give, what they add to the chunk collection and which
    sources they list. Routing, file copying and the answer generator are
    not modelled; the generator's answer is recorded as the inputs it is
    asked with. */
module Api {
  import opened Common
  import opened Text
  import DocumentProcessor
  import Store

  /** An `HTTPException`: its status code and detail message. */
  datatype HttpError = HttpError(status: nat, detail: string)

  datatype UploadResponse = UploadResponse(status: string, message: string, filename: string, chunksAdded: nat)

  /** The outcome of an upload: the response, or the error together with
      whether the file had already been written to the upload directory. */
  datatype UploadResult = Accepted(response: UploadResponse) | Rejected(error: HttpError, saved: bool)

  /** The chunking settings of the backend. */
  datatype Settings = Settings(chunkSize: int, chunkOverlap: int)

  /** The configured defaults: chunks of 1000 characters overlapping by 200. */
  const DefaultSettings := Settings(1000, 200)

  const NoFilenameDetail := "No filename provided"
  const NoTextDetail := "No text could be extracted from the document"
  const NoChunksDetail := "Failed to create chunks from the document"
  const ProcessingErrorPrefix := "Error processing file: "

  function UnsupportedTypeDetail(ext: string): string {
    "Unsupported file type: " + ext + ". Only PDF and PPTX files are supported."
  }

  /** The metadata stored with the chunks of an uploaded file: chunk `i`
      gets `{"filename": filename, "chunk_id": i}`. */
  function UploadMetadata(filename: string, n: nat): (ms: seq<Metadata>)
    ensures |ms| == n
    ensures forall i :: 0 <= i < n ==> ms[i] == map["filename" := Str(filename), "chunk_id" := Int(i)]
  {
    seq(n, i => map["filename" := Str(filename), "chunk_id" := Int(i)])
  }

  /** What an upload decides before it touches the collection: the error it
      raises, or the chunks it indexes. */
  datatype UploadPlan = Refuse(error: HttpError, saved: bool) | Index(chunks: seq<string>)

  /** The upload's checks, in the order the endpoint makes them: a filename,
      an accepted suffix (before the file is saved), a readable document, some
      text, some chunks. The saved file is read from the upload directory
      under the same name, so the processor sees the same suffix. */
  function PlanUpload(filename: string, content: FileContent, settings: Settings): (p: UploadPlan)
    requires settings.chunkSize - settings.chunkOverlap > 0
    ensures p.Refuse? && !p.saved ==> p.error.status == 400
    ensures p.Refuse? && p.error.status != 400 ==> p.error.status == 500 && p.saved
    ensures p.Index? ==> p.chunks != [] && forall j :: 0 <= j < |p.chunks| ==> !IsBlank(p.chunks[j])
  {
    if filename == [] then Refuse(HttpError(400, NoFilenameDetail), false)
    else
      var ext := Lower(Suffix(filename));
      if ext != ".pdf" && ext != ".pptx" then Refuse(HttpError(400, UnsupportedTypeDetail(ext)), false)
      else match DocumentProcessor.DocumentText(filename, content)
        case Err(e) => Refuse(HttpError(500, ProcessingErrorPrefix + e.message), true)
        case Ok(text) =>
          if IsBlank(text) then Refuse(HttpError(400, NoTextDetail), true)
          else
            var chunks := DocumentProcessor.Chunks(text, settings.chunkSize, settings.chunkOverlap);
            DocumentProcessor.ChunksAreNonBlankWindows(text, settings.chunkSize, settings.chunkOverlap);
            DocumentProcessor.NonBlankMembers(DocumentProcessor.ChunkWindows(text, settings.chunkSize, settings.chunkOverlap));
            if chunks == [] then Refuse(HttpError(400, NoChunksDetail), true)
            else Index(chunks)
  }

  /** An upload is indexed exactly when it has a name with an accepted
      suffix, its document is readable and yields some non-blank text and
      some chunks; a refusal for the name or the suffix comes before the
      file is saved. */
  lemma UploadChecks(filename: string, content: FileContent, settings: Settings)
    requires settings.chunkSize - settings.chunkOverlap > 0
    ensures var p := PlanUpload(filename, content, settings);
      var text := DocumentProcessor.DocumentText(filename, content);
      (p.Index? <==>
        filename != [] && Lower(Suffix(filename)) in {".pdf", ".pptx"} && text.Ok? && !IsBlank(text.value) &&
        DocumentProcessor.Chunks(text.value, settings.chunkSize, settings.chunkOverlap) != []) &&
      (filename == [] ==> p == Refuse(HttpError(400, NoFilenameDetail), false)) &&
      (filename != [] && Lower(Suffix(filename)) !in {".pdf", ".pptx"} ==>
        p == Refuse(HttpError(400, UnsupportedTypeDetail(Lower(Suffix(filename)))), false)) &&
      (p.Refuse? && p.saved ==> filename != [] && Lower(Suffix(filename)) in {".pdf", ".pptx"})
  {
  }

  /** The suffix check of the upload is the processor's own, so an upload
      never reaches the processor's unsupported-format error: a processing
      failure that passed the check is a reader failure. */
  lemma UploadNeverHitsUnsupportedFormat(filename: string, content: FileContent, settings: Settings)
    requires settings.chunkSize - settings.chunkOverlap > 0
    ensures var p := PlanUpload(filename, content, settings);
      p.Refuse? && p.error.status == 500 ==>
        DocumentProcessor.DocumentText(filename, content).Err? &&
        DocumentProcessor.DocumentText(filename, content).error.ReaderFailure?
  {
    var ext := Lower(Suffix(filename));
    if filename != [] && (ext == ".pdf" || ext == ".pptx") {
      assert DocumentProcessor.Dispatch(filename).Ok?;
    }
  }

  /** With a non-negative overlap, text that is not blank always gives a
      chunk, so "Failed to create chunks" is never raised; with the default
      settings an upload only fails for the name, the suffix, the reader or
      blank text. */
  lemma NoChunksUnreachable(filename: string, content: FileContent, settings: Settings)
    requires 0 <= settings.chunkOverlap < settings.chunkSize
    ensures PlanUpload(filename, content, settings) != Refuse(HttpError(400, NoChunksDetail), true)
  {
    var text := DocumentProcessor.DocumentText(filename, content);
    if text.Ok? && !IsBlank(text.value) {
      DocumentProcessor.NonBlankTextHasChunk(text.value, settings.chunkSize, settings.chunkOverlap);
    }
  }

  /** The configured settings let the window advance and never lose a
      non-blank text: an upload under them is never refused for "no chunks". */
  lemma DefaultSettingsNeverLoseText(filename: string, content: FileContent)
    ensures 0 <= DefaultSettings.chunkOverlap < DefaultSettings.chunkSize
    ensures PlanUpload(filename, content, DefaultSettings) != Refuse(HttpError(400, NoChunksDetail), true)
  {
    NoChunksUnreachable(filename, content, DefaultSettings);
  }

  /** Handles an upload: runs the checks, extracts and chunks the text, and
      adds the chunks with their metadata to the collection. A refused upload
      leaves the collection as it was. */
  method Upload(store: Store.VectorStore, filename: string, content: FileContent, settings: Settings)
    returns (r: UploadResult)
    requires store.Valid()
    requires settings.chunkSize - settings.chunkOverlap > 0
    modifies store
    ensures store.Valid()
    ensures var p := PlanUpload(filename, content, settings);
      match p
      case Refuse(error, saved) =>
        r == Rejected(error, saved) && store.entries == old(store.entries)
      case Index(chunks) =>
        r == Accepted(UploadResponse("success", "File processed successfully", filename, |chunks|)) &&
        store.entries == old(store.entries) + Store.NewEntries(|old(store.entries)|, chunks, UploadMetadata(filename, |chunks|))
  {
    if filename == [] {
      return Rejected(HttpError(400, NoFilenameDetail), false);
    }
    var fileExt := Lower(Suffix(filename));
    if fileExt != ".pdf" && fileExt != ".pptx" {
      return Rejected(HttpError(400, UnsupportedTypeDetail(fileExt)), false);
    }
    var processed := DocumentProcessor.ProcessDocument(filename, content);
    if processed.Err? {
      return Rejected(HttpError(500, ProcessingErrorPrefix + processed.error.message), true);
    }
    var text := processed.value;
    if IsBlank(text) {
      return Rejected(HttpError(400, NoTextDetail), true);
    }
    var chunks := DocumentProcessor.ChunkText(text, settings.chunkSize, settings.chunkOverlap);
    if chunks == [] {
      return Rejected(HttpError(400, NoChunksDetail), true);
    }
    var metadata := UploadMetadata(filename, |chunks|);
    var added := store.AddDocuments(chunks, Some(metadata));
    assert added.Pass?;
    r := Accepted(UploadResponse("success", "File processed successfully", filename, |chunks|));
  }

  // ---------- Chat ----------

  /** A question, with the earlier turns of the conversation when the client
      sends them. */
  datatype ChatRequest = ChatRequest(query: string, chatHistory: Option<seq<map<string, string>>>)

  /** The hits of a search: the chunk texts and, for each, its metadata when
      the collection has any. */
  datatype SearchResults = SearchResults(documents: seq<string>, metadatas: seq<Option<Metadata>>)

  /** An answer: a fixed text, or the answer generator asked with the query
      and the retrieved chunks, with the conversation so far when there is one. */
  datatype Answer =
    | Fixed(text: string)
    | Generated(query: string, documents: seq<string>)
    | GeneratedWithHistory(query: string, documents: seq<string>, history: seq<map<string, string>>)

  datatype ChatResponse = ChatResponse(answer: Answer, sources: seq<string>)

  const EmptyQueryDetail := "Query cannot be empty"
  const UploadFirstAnswer := "Please upload some study materials (PDF or PPTX files) first before asking questions."
  const NotFoundAnswer := "I couldn't find relevant information in the uploaded materials to answer your question."

  /** The number of hits the chat endpoint asks for. */
  const ChatResults: nat := 3

  /** Python's truth value of a metadata entry: present and not empty. */
  predicate Truthy(m: Option<Metadata>) {
    m.Some? && m.value != map[]
  }

  /** A metadata value as an f-string shows it. */
  function Render(v: MetaValue): string {
    match v
    case Str(s) => s
    case Int(i) => IntToString(i)
  }

  /** The label of a source: "{filename} (Chunk {chunk_id})", with "Unknown"
      and "N/A" for a missing file name and chunk id. */
  function SourceLabel(m: Metadata): (shown: string)
    ensures "filename" !in m ==> shown == "Unknown (Chunk " + (if "chunk_id" in m then Render(m["chunk_id"]) else "N/A") + ")"
    ensures "chunk_id" !in m ==> shown == (if "filename" in m then Render(m["filename"]) else "Unknown") + " (Chunk N/A)"
  {
    var filename := if "filename" in m then Render(m["filename"]) else "Unknown";
    var chunkId := if "chunk_id" in m then Render(m["chunk_id"]) else "N/A";
    filename + " (Chunk " + chunkId + ")"
  }

  /** The labels of the truthy metadata entries, in order. */
  function Labels(metas: seq<Option<Metadata>>): (ls: seq<string>)
    ensures |ls| <= |metas|
  {
    if metas == [] then []
    else
      var last := metas[|metas| - 1];
      Labels(metas[..|metas| - 1]) + (if Truthy(last) then [SourceLabel(last.value)] else [])
  }

  lemma LabelsSnoc(ms: seq<Option<Metadata>>, x: Option<Metadata>)
    ensures Labels(ms + [x]) == Labels(ms) + (if Truthy(x) then [SourceLabel(x.value)] else [])
  {
    assert (ms + [x])[..|ms|] == ms;
  }

  /** The labels with later repetitions dropped. */
  function Dedup(xs: seq<string>): seq<string> {
    if xs == [] then []
    else
      var d := Dedup(xs[..|xs| - 1]);
      if xs[|xs| - 1] in d then d else d + [xs[|xs| - 1]]
  }

  lemma DedupSnoc(xs: seq<string>, x: string)
    ensures Dedup(xs + [x]) == if x in Dedup(xs) then Dedup(xs) else Dedup(xs) + [x]
  {
    assert (xs + [x])[..|xs|] == xs;
  }

  /** The position of the first occurrence of `x` in `xs`. */
  function IndexOf(xs: seq<string>, x: string): (i: nat)
    requires x in xs
    ensures i < |xs| && xs[i] == x
    ensures forall j :: 0 <= j < i ==> xs[j] != x
  {
    if xs[0] == x then 0 else 1 + IndexOf(xs[1..], x)
  }

  lemma IndexOfPrefix(xs: seq<string>, y: string, x: string)
    requires x in xs
    ensures IndexOf(xs + [y], x) == IndexOf(xs, x)
  {
    var i := IndexOf(xs, x);
    var k := IndexOf(xs + [y], x);
    assert (xs + [y])[i] == x;
    assert k <= i;
    assert xs[k] == x;
  }

  /** The deduplicated list holds each label of the input exactly once, and
      lists them in the order of their first occurrence. */
  lemma {:induction false} DedupSpec(xs: seq<string>)
    ensures forall x :: x in Dedup(xs) <==> x in xs
    ensures forall i, j :: 0 <= i < j < |Dedup(xs)| ==> Dedup(xs)[i] != Dedup(xs)[j]
    ensures forall i, j :: 0 <= i < j < |Dedup(xs)| ==> IndexOf(xs, Dedup(xs)[i]) < IndexOf(xs, Dedup(xs)[j])
  {
    if xs != [] {
      var init, x := xs[..|xs| - 1], xs[|xs| - 1];
      assert xs == init + [x];
      DedupSpec(init);
      var d := Dedup(init);
      forall y | y in init ensures IndexOf(xs, y) == IndexOf(init, y) {
        IndexOfPrefix(init, x, y);
      }
      if x !in d {
        assert Dedup(xs) == d + [x];
        assert IndexOf(xs, x) == |init|;
        forall i | 0 <= i < |d| ensures IndexOf(xs, d[i]) < IndexOf(xs, x) {
          assert d[i] in init;
        }
      } else {
        assert Dedup(xs) == d;
      }
    }
  }

  /** Builds the source list with a loop over the hits' metadata, skipping
      falsy entries and labels already listed. */
  method BuildSources(metadatas: seq<Option<Metadata>>) returns (sources: seq<string>)
    ensures sources == Dedup(Labels(metadatas))
  {
    sources := [];
    for i := 0 to |metadatas|
      invariant sources == Dedup(Labels(metadatas[..i]))
    {
      var meta := metadatas[i];
      ghost var before := Labels(metadatas[..i]);
      assert metadatas[..i + 1] == metadatas[..i] + [meta];
      LabelsSnoc(metadatas[..i], meta);
      if Truthy(meta) {
        var source := SourceLabel(meta.value);
        assert Labels(metadatas[..i + 1]) == before + [source];
        DedupSnoc(before, source);
        if source !in sources {
          sources := sources + [source];
        }
      } else {
        assert Labels(metadatas[..i + 1]) == before;
      }
    }
    assert metadatas[..|metadatas|] == metadatas;
  }

  /** A source is listed exactly when some truthy metadata entry has that
      label; none is listed twice. */
  lemma SourcesSpec(metadatas: seq<Option<Metadata>>)
    ensures forall s :: s in Dedup(Labels(metadatas)) <==>
      exists k :: 0 <= k < |metadatas| && Truthy(metadatas[k]) && SourceLabel(metadatas[k].value) == s
    ensures forall i, j :: 0 <= i < j < |Dedup(Labels(metadatas))| ==> Dedup(Labels(metadatas))[i] != Dedup(Labels(metadatas))[j]
  {
    DedupSpec(Labels(metadatas));
    forall s | s in Labels(metadatas)
      ensures exists k :: 0 <= k < |metadatas| && Truthy(metadatas[k]) && SourceLabel(metadatas[k].value) == s
    {
      var k := LabelSource(metadatas, s);
    }
    forall k | 0 <= k < |metadatas| && Truthy(metadatas[k])
      ensures SourceLabel(metadatas[k].value) in Labels(metadatas)
    {
      LabelListed(metadatas, k);
    }
  }

  /** Every label comes from a truthy entry. */
  lemma {:induction false} LabelSource(metadatas: seq<Option<Metadata>>, s: string) returns (k: nat)
    requires s in Labels(metadatas)
    ensures k < |metadatas| && Truthy(metadatas[k]) && SourceLabel(metadatas[k].value) == s
  {
    var init, last := metadatas[..|metadatas| - 1], metadatas[|metadatas| - 1];
    if s in Labels(init) {
      k := LabelSource(init, s);
      assert metadatas[k] == init[k];
    } else {
      k := |metadatas| - 1;
    }
  }

  /** Every truthy entry's label is listed. */
  lemma {:induction false} LabelListed(metadatas: seq<Option<Metadata>>, k: nat)
    requires k < |metadatas| && Truthy(metadatas[k])
    ensures SourceLabel(metadatas[k].value) in Labels(metadatas)
  {
    var init := metadatas[..|metadatas| - 1];
    if k < |init| {
      LabelListed(init, k);
      assert init[k] == metadatas[k];
    }
  }

  /** Answers a question. A blank query is refused; with an empty collection
      the fixed "upload first" answer is given without searching; without
      hits the fixed "not found" answer; otherwise the generator's answer
      (with the conversation when there is one) and the sources of the hits. */
  method Chat(store: Store.VectorStore, request: ChatRequest, search: (string, nat) -> SearchResults)
    returns (r: Result<ChatResponse, HttpError>)
    ensures IsBlank(request.query) ==> r == Err(HttpError(400, EmptyQueryDetail))
    ensures !IsBlank(request.query) && |store.entries| == 0 ==> r == Ok(ChatResponse(Fixed(UploadFirstAnswer), []))
    ensures var hits := search(request.query, ChatResults);
      !IsBlank(request.query) && |store.entries| > 0 && hits.documents == [] ==>
        r == Ok(ChatResponse(Fixed(NotFoundAnswer), []))
    ensures var hits := search(request.query, ChatResults);
      !IsBlank(request.query) && |store.entries| > 0 && hits.documents != [] ==>
        r.Ok? && r.value.sources == Dedup(Labels(hits.metadatas)) &&
        r.value.answer ==
          (if request.chatHistory.Some? && request.chatHistory.value != []
           then GeneratedWithHistory(request.query, hits.documents, request.chatHistory.value)
           else Generated(request.query, hits.documents))
  {
    if IsBlank(request.query) {
      return Err(HttpError(400, EmptyQueryDetail));
    }
    var docCount := store.GetCollectionCount();
    if docCount == 0 {
      return Ok(ChatResponse(Fixed(UploadFirstAnswer), []));
    }
    var results := search(request.query, ChatResults);
    var documents := results.documents;
    var metadatas := results.metadatas;
    if documents == [] {
      return Ok(ChatResponse(Fixed(NotFoundAnswer), []));
    }
    var answer;
    if request.chatHistory.Some? && request.chatHistory.value != [] {
      answer := GeneratedWithHistory(request.query, documents, request.chatHistory.value);
    } else {
      answer := Generated(request.query, documents);
    }
    var sources := BuildSources(metadatas);
    return Ok(ChatResponse(answer, sources));
  }

  /** Labels of a hit, a hit without metadata, the first hit again and a
      third hit: the hit without metadata is skipped. */
  lemma LabelsOfFourHits(m: Metadata, p: Metadata)
    requires m != map[] && p != map[]
    ensures Labels([Some(m), None, Some(m), Some(p)]) == [SourceLabel(m), SourceLabel(m), SourceLabel(p)]
  {
    var s1 := [] + [Some(m)];
    var s2 := s1 + [None];
    var s3 := s2 + [Some(m)];
    var s4 := s3 + [Some(p)];
    LabelsSnoc([], Some(m));
    LabelsSnoc(s1, None);
    LabelsSnoc(s2, Some(m));
    LabelsSnoc(s3, Some(p));
    assert s4 == [Some(m), None, Some(m), Some(p)];
  }

  /** A repeated label followed by a different one gives both, once each. */
  lemma DedupOfRepeat(a: string, b: string)
    requires a != b
    ensures Dedup([a, a, b]) == [a, b]
  {
    var s1 := [] + [a];
    var s2 := s1 + [a];
    var s3 := s2 + [b];
    DedupSnoc([], a);
    DedupSnoc(s1, a);
    DedupSnoc(s2, b);
    assert s3 == [a, a, b];
  }

  /** Two hits of the same chunk and one without metadata give one source;
      missing keys give the defaults. */
  lemma SourcesExample()
    ensures Dedup(Labels([Some(map["filename" := Str("notes.pdf"), "chunk_id" := Int(2)]),
                          None,
                          Some(map["filename" := Str("notes.pdf"), "chunk_id" := Int(2)]),
                          Some(map["page" := Int(7)])]))
      == [SourceLabel(map["filename" := Str("notes.pdf"), "chunk_id" := Int(2)]), "Unknown (Chunk N/A)"]
  {
    var m := map["filename" := Str("notes.pdf"), "chunk_id" := Int(2)];
    var p := map["page" := Int(7)];
    assert "filename" in m && "page" in p;
    var a, b := SourceLabel(m), SourceLabel(p);
    LabelsOfFourHits(m, p);
    assert b == "Unknown (Chunk N/A)";
    assert a != b by {
      assert a == "notes.pdf (Chunk " + IntToString(2) + ")";
      assert a[0] == 'n' && b[0] == 'U';
    }
    DedupOfRepeat(a, b);
  }
}
