/** The retrieval core of the study-assistant package: the index builder's
    validation chain, chunk documents with provenance metadata, precise (top-k)
    retrieval, and comprehensive retrieval, which maps each candidate's raw
    score to a similarity by a three-band heuristic and keeps the candidates
    that reach a threshold. Embeddings, the FAISS index and its persistence are
    outside the model: a search is a function from a query and a count to the
    hits the index returns. */
module Retrieval {
  import opened Common
  import opened Text

  /** A LangChain `Document`: chunk text plus its metadata. */
  datatype Document = Document(pageContent: string, metadata: Metadata)

  /** A search hit of `similarity_search_with_score`: the document and its raw score, if any. */
  datatype Candidate = Candidate(doc: Document, rawScore: Option<real>)

  /** How many candidates comprehensive retrieval asks the index for. */
  const CandidatePoolSize: nat := 50

  // ---------- Score normalisation ----------

  /** The three bands of the heuristic, in the order they are tested. */
  datatype Band = DistanceBand | CosineBand | FallbackBand

  function BandOf(rs: real): Band {
    if rs > 1.5 then DistanceBand
    else if -1.2 <= rs <= 1.2 then CosineBand
    else FallbackBand
  }

  function Abs(x: real): real {
    if x < 0.0 then -x else x
  }

  /** The similarity of a raw score. Bounded by [-0.1, 1.1], not [0, 1]: the
      cosine band reaches past both ends. Every score outside the cosine band
      maps strictly between 0 and 1/2.2. */
  function Normalize(rs: real): (sim: real)
    ensures -0.1 <= sim <= 1.1
    ensures BandOf(rs) != CosineBand ==> 0.0 < sim < 1.0 / 2.2
    ensures BandOf(rs) == CosineBand ==> 2.0 * sim - 1.0 == rs
  {
    if rs > 1.5 then
      NormalizeDistanceBound(rs);
      1.0 / (1.0 + rs)
    else if -1.2 <= rs <= 1.2 then
      (rs + 1.0) / 2.0
    else
      NormalizeDistanceBound(Abs(rs));
      1.0 / (1.0 + Abs(rs))
  }

  /** 1 / (1 + d) lies strictly between 0 and 1/2.2 once d exceeds 1.2. */
  lemma NormalizeDistanceBound(d: real)
    requires d > 1.2
    ensures 0.0 < 1.0 / (1.0 + d) < 1.0 / 2.2
  {
    var q := 1.0 / (1.0 + d);
    assert q * (1.0 + d) == 1.0;
    assert q > 0.0;
    assert q * 2.2 < q * (1.0 + d);
  }

  /** Within the cosine band the similarity grows with the raw score. */
  lemma CosineBandMonotone(a: real, b: real)
    requires BandOf(a) == CosineBand && BandOf(b) == CosineBand
    requires a <= b
    ensures Normalize(a) <= Normalize(b)
  {
  }

  /** The mapping is not monotone: it drops at the edge of the cosine band. */
  lemma NormalizeDropsPastCosineBand()
    ensures Normalize(1.2) == 1.1
    ensures Normalize(1.3) < 0.5
  {
    NormalizeDistanceBound(1.3);
  }

  /** A threshold of at least 1/2.2 can only be met by a cosine-band score of
      at least 2 * threshold - 1. */
  lemma HighThresholdMeansCosineBand(rs: real, threshold: real)
    requires threshold >= 1.0 / 2.2
    requires Normalize(rs) >= threshold
    ensures BandOf(rs) == CosineBand
    ensures rs >= 2.0 * threshold - 1.0
  {
  }

  // ---------- Comprehensive retrieval ----------

  /** A candidate survives when it has a raw score whose similarity reaches the threshold. */
  predicate Kept(c: Candidate, threshold: real) {
    c.rawScore.Some? && Normalize(c.rawScore.value) >= threshold
  }

  /** A candidate paired with its own similarity. */
  function Scored(c: Candidate): (Document, real)
    requires c.rawScore.Some?
  {
    (c.doc, Normalize(c.rawScore.value))
  }

  /** The survivors of a candidate pool, in pool order. */
  function Survivors(cs: seq<Candidate>, threshold: real): (out: seq<(Document, real)>)
    ensures |out| <= |cs|
    ensures forall j :: 0 <= j < |out| ==> out[j].1 >= threshold
  {
    if cs == [] then []
    else
      var last := cs[|cs| - 1];
      Survivors(cs[..|cs| - 1], threshold) + (if Kept(last, threshold) then [Scored(last)] else [])
  }

  /** The positions, in increasing order, of the candidates that survive. */
  function KeptIndices(cs: seq<Candidate>, threshold: real): (idx: seq<nat>)
    ensures forall j :: 0 <= j < |idx| ==> idx[j] < |cs| && Kept(cs[idx[j]], threshold)
    ensures forall j, k :: 0 <= j < k < |idx| ==> idx[j] < idx[k]
    ensures forall i :: 0 <= i < |cs| && Kept(cs[i], threshold) ==> i in idx
  {
    if cs == [] then []
    else
      var n := |cs| - 1;
      KeptIndices(cs[..n], threshold) + (if Kept(cs[n], threshold) then [n] else [])
  }

  /** The survivors are exactly the kept candidates, in pool order, each paired
      with its own normalised score: nothing is reordered, duplicated, or taken
      from a candidate without a score or below the threshold. */
  lemma {:induction false} SurvivorsAreKeptCandidates(cs: seq<Candidate>, threshold: real)
    ensures |Survivors(cs, threshold)| == |KeptIndices(cs, threshold)|
    ensures forall j :: 0 <= j < |Survivors(cs, threshold)| ==>
      Survivors(cs, threshold)[j] == Scored(cs[KeptIndices(cs, threshold)[j]])
  {
    if cs != [] {
      var n := |cs| - 1;
      SurvivorsAreKeptCandidates(cs[..n], threshold);
      var s, k := Survivors(cs[..n], threshold), KeptIndices(cs[..n], threshold);
      forall j | 0 <= j < |s| ensures s[j] == Scored(cs[k[j]]) {
        assert cs[..n][k[j]] == cs[k[j]];
      }
    }
  }

  /** `xs` occurs in `ys` in order, possibly with gaps. */
  ghost predicate IsSubsequence<T>(xs: seq<T>, ys: seq<T>)
    decreases |ys|
  {
    if ys == [] then xs == []
    else
      (xs != [] && xs[|xs| - 1] == ys[|ys| - 1] && IsSubsequence(xs[..|xs| - 1], ys[..|ys| - 1]))
      || IsSubsequence(xs, ys[..|ys| - 1])
  }

  /** The scored pairs reaching a threshold, in order. */
  function AtLeast(ps: seq<(Document, real)>, threshold: real): seq<(Document, real)> {
    if ps == [] then []
    else
      AtLeast(ps[..|ps| - 1], threshold)
      + (if ps[|ps| - 1].1 >= threshold then [ps[|ps| - 1]] else [])
  }

  lemma {:induction false} AtLeastIsSubsequence(ps: seq<(Document, real)>, threshold: real)
    ensures IsSubsequence(AtLeast(ps, threshold), ps)
  {
    if ps != [] {
      var n := |ps| - 1;
      var a := AtLeast(ps[..n], threshold);
      AtLeastIsSubsequence(ps[..n], threshold);
      assert ps[..|ps| - 1] == ps[..n];
      if ps[n].1 >= threshold {
        assert AtLeast(ps, threshold) == a + [ps[n]];
        assert (a + [ps[n]])[..|a|] == a;
      } else {
        assert AtLeast(ps, threshold) == a;
      }
    }
  }

  /** Raising the threshold filters the lower threshold's result: the higher
      threshold's survivors are exactly those of the lower one that reach it. */
  lemma {:induction false} ThresholdFilters(cs: seq<Candidate>, low: real, high: real)
    requires low <= high
    ensures Survivors(cs, high) == AtLeast(Survivors(cs, low), high)
  {
    if cs != [] {
      var n := |cs| - 1;
      var c := cs[n];
      ThresholdFilters(cs[..n], low, high);
      var sl := Survivors(cs[..n], low);
      if Kept(c, low) {
        var sc := Scored(c);
        assert Survivors(cs, low) == sl + [sc];
        assert (sl + [sc])[..|sl|] == sl;
        assert AtLeast(sl + [sc], high) == AtLeast(sl, high) + (if sc.1 >= high then [sc] else []);
      } else {
        assert Survivors(cs, low) == sl;
      }
    }
  }

  /** Raising the threshold yields an order-preserving subsequence of the
      lower threshold's result. */
  lemma ThresholdMonotone(cs: seq<Candidate>, low: real, high: real)
    requires low <= high
    ensures IsSubsequence(Survivors(cs, high), Survivors(cs, low))
  {
    ThresholdFilters(cs, low, high);
    AtLeastIsSubsequence(Survivors(cs, low), high);
  }

  /** With a threshold of at least 1/2.2 every survivor came from a cosine-band
      score of at least 2 * threshold - 1. */
  lemma HighThresholdSurvivors(cs: seq<Candidate>, threshold: real)
    requires threshold >= 1.0 / 2.2
    ensures forall j :: 0 <= j < |KeptIndices(cs, threshold)| ==>
      var c := cs[KeptIndices(cs, threshold)[j]];
      BandOf(c.rawScore.value) == CosineBand && c.rawScore.value >= 2.0 * threshold - 1.0
  {
    var idx := KeptIndices(cs, threshold);
    forall j | 0 <= j < |idx|
      ensures BandOf(cs[idx[j]].rawScore.value) == CosineBand
      ensures cs[idx[j]].rawScore.value >= 2.0 * threshold - 1.0
    {
      HighThresholdMeansCosineBand(cs[idx[j]].rawScore.value, threshold);
    }
  }

  /** Comprehensive retrieval: no result for the empty query; otherwise the
      survivors of the pool of `CandidatePoolSize` candidates the index
      returns, never more than that pool holds. */
  method ComprehensiveRetrieval(query: string, search: (string, nat) -> seq<Candidate>, threshold: real)
    returns (out: seq<(Document, real)>)
    ensures query == "" ==> out == []
    ensures query != "" ==> out == Survivors(search(query, CandidatePoolSize), threshold)
    ensures query != "" && |search(query, CandidatePoolSize)| <= CandidatePoolSize ==> |out| <= CandidatePoolSize
  {
    if query == "" {
      return [];
    }
    var candidates := search(query, CandidatePoolSize);
    out := [];
    var i := 0;
    while i < |candidates|
      invariant 0 <= i <= |candidates|
      invariant out == Survivors(candidates[..i], threshold)
    {
      var c := candidates[i];
      assert candidates[..i + 1][..i] == candidates[..i];
      assert Survivors(candidates[..i + 1], threshold)
          == out + (if Kept(c, threshold) then [Scored(c)] else []);
      if c.rawScore.Some? {
        var sim := Normalize(c.rawScore.value);
        if sim >= threshold {
          out := out + [(c.doc, sim)];
        }
      }
      i := i + 1;
    }
    assert candidates[..|candidates|] == candidates;
  }

  /** Three candidates with raw scores 0.1, 2.0 and 0.9 at threshold 0.5: the
      first (0.55) and the last (0.95) survive, the middle one (1/3) does not. */
  lemma ThreeCandidateExample(d0: Document, d1: Document, d2: Document)
    ensures Survivors([Candidate(d0, Some(0.1)), Candidate(d1, Some(2.0)), Candidate(d2, Some(0.9))], 0.5)
      == [(d0, 0.55), (d2, 0.95)]
  {
    var cs := [Candidate(d0, Some(0.1)), Candidate(d1, Some(2.0)), Candidate(d2, Some(0.9))];
    NormalizeDistanceBound(2.0);
    assert Normalize(0.1) == 0.55 && Normalize(0.9) == 0.95;
    assert cs[..1][..0] == [];
    assert Survivors(cs[..1], 0.5) == [(d0, 0.55)];
    assert cs[..2][..1] == cs[..1];
    assert Survivors(cs[..2], 0.5) == [(d0, 0.55)];
    assert cs[..3] == cs;
  }

  // ---------- Precise retrieval ----------

  /** Precise retrieval: no result for the empty query; otherwise exactly the
      `k` hits the index search returns, unchanged. */
  function PreciseRetrieval(query: string, search: (string, nat) -> seq<Document>, k: nat): (r: seq<Document>)
    ensures query == "" ==> r == []
    ensures query != "" ==> r == search(query, k)
  {
    if query == "" then [] else search(query, k)
  }

  /** When the index returns at most `k` hits, so does precise retrieval. */
  lemma PreciseAtMostK(query: string, search: (string, nat) -> seq<Document>, k: nat)
    requires forall q, n :: |search(q, n)| <= n
    ensures |PreciseRetrieval(query, search, k)| <= k
  {
  }

  // ---------- Chunk documents ----------

  /** The metadata of the `i`-th chunk of `source`. */
  function ChunkMetadata(source: string, i: nat): Metadata {
    map["source" := Str(source), "chunk_id" := Str(source + "__" + NatToString(i))]
  }

  /** Wraps each chunk in a document, in chunk order, tagged with its source and
      a chunk id built from the source name and the chunk's position. */
  method MakeDocuments(chunks: seq<string>, source: string) returns (docs: seq<Document>)
    ensures |docs| == |chunks|
    ensures forall i :: 0 <= i < |docs| ==> docs[i] == Document(chunks[i], ChunkMetadata(source, i))
  {
    docs := [];
    var i := 0;
    while i < |chunks|
      invariant 0 <= i <= |chunks|
      invariant |docs| == i
      invariant forall j :: 0 <= j < i ==> docs[j] == Document(chunks[j], ChunkMetadata(source, j))
    {
      var meta := map["source" := Str(source), "chunk_id" := Str(source + "__" + NatToString(i))];
      docs := docs + [Document(chunks[i], meta)];
      i := i + 1;
    }
  }

  /** Chunk ids of one source are distinct. */
  lemma ChunkIdsDistinct(source: string, i: nat, j: nat)
    requires i != j
    ensures ChunkMetadata(source, i)["chunk_id"] != ChunkMetadata(source, j)["chunk_id"]
  {
    if source + "__" + NatToString(i) == source + "__" + NatToString(j) {
      PrefixCancel(source + "__", NatToString(i), NatToString(j));
      NatToStringInjective(i, j);
    }
  }

  // ---------- Text extraction for the index ----------

  /** `sep.join(parts)`. */
  function Join(sep: string, parts: seq<string>): string {
    if parts == [] then ""
    else if |parts| == 1 then parts[0]
    else Join(sep, parts[..|parts| - 1]) + sep + parts[|parts| - 1]
  }

  /** A newline-joined text is blank exactly when every part is. */
  lemma {:induction false} JoinLinesBlank(parts: seq<string>)
    ensures IsBlank(Join("\n", parts)) <==> forall k :: 0 <= k < |parts| ==> IsBlank(parts[k])
  {
    if |parts| > 1 {
      var n := |parts| - 1;
      JoinLinesBlank(parts[..n]);
      BlankConcat(Join("\n", parts[..n]), "\n");
      BlankConcat(Join("\n", parts[..n]) + "\n", parts[n]);
      assert forall k :: 0 <= k < n ==> parts[..n][k] == parts[k];
    }
  }

  /** The non-empty texts, in order. */
  function NonEmptyTexts(texts: seq<string>): (r: seq<string>)
    ensures |r| <= |texts|
    ensures forall k :: 0 <= k < |r| ==> r[k] != ""
  {
    if texts == [] then []
    else NonEmptyTexts(texts[..|texts| - 1]) + (if texts[|texts| - 1] != "" then [texts[|texts| - 1]] else [])
  }

  /** A text is kept exactly when it is one of the texts and is not empty. */
  lemma {:induction false} NonEmptyTextsMembers(texts: seq<string>)
    ensures forall x :: x in NonEmptyTexts(texts) <==> x in texts && x != ""
  {
    if texts != [] {
      var n := |texts| - 1;
      NonEmptyTextsMembers(texts[..n]);
      assert texts == texts[..n] + [texts[n]];
    }
  }

  /** Filtering distributes over concatenation, so the kept texts keep their
      order: with the one-text case of the definition this fixes the result. */
  lemma {:induction false} NonEmptyTextsConcat(a: seq<string>, b: seq<string>)
    ensures NonEmptyTexts(a + b) == NonEmptyTexts(a) + NonEmptyTexts(b)
    decreases |b|
  {
    if b == [] {
      assert a + b == a;
    } else {
      var n := |b| - 1;
      NonEmptyTextsConcat(a, b[..n]);
      assert (a + b)[..|a + b| - 1] == a + b[..n];
      assert (a + b)[|a + b| - 1] == b[n];
    }
  }

  /** A newline-joined list of the non-empty texts is blank exactly when every
      text is. */
  lemma IndexTextBlank(texts: seq<string>)
    ensures IsBlank(Join("\n", NonEmptyTexts(texts))) <==> forall k :: 0 <= k < |texts| ==> IsBlank(texts[k])
  {
    var r := NonEmptyTexts(texts);
    JoinLinesBlank(r);
    NonEmptyTextsMembers(texts);
    assert IsBlank("");
    if forall k :: 0 <= k < |texts| ==> IsBlank(texts[k]) {
      forall j | 0 <= j < |r| ensures IsBlank(r[j]) {
        assert r[j] in texts;
      }
    }
    if forall j :: 0 <= j < |r| ==> IsBlank(r[j]) {
      forall k | 0 <= k < |texts| ensures IsBlank(texts[k]) {
        if texts[k] != "" {
          assert texts[k] in r;
        }
      }
    }
  }

  /** The texts of all shapes that have one, slide by slide. */
  function ShapeTexts(slides: seq<Slide>): seq<string> {
    if slides == [] then []
    else ShapeTexts(slides[..|slides| - 1]) + SlideShapeTexts(slides[|slides| - 1])
  }

  function SlideShapeTexts(shapes: Slide): seq<string> {
    if shapes == [] then []
    else
      SlideShapeTexts(shapes[..|shapes| - 1])
      + (match shapes[|shapes| - 1] case Some(t) => [t] case None => [])
  }

  lemma {:induction false} SlideShapeTextsMembers(shapes: Slide)
    ensures forall x :: x in SlideShapeTexts(shapes) <==> Some(x) in shapes
  {
    if shapes != [] {
      var n := |shapes| - 1;
      SlideShapeTextsMembers(shapes[..n]);
      assert shapes == shapes[..n] + [shapes[n]];
    }
  }

  /** A text is a shape text exactly when some shape of some slide has it. */
  lemma {:induction false} ShapeTextsMembers(slides: seq<Slide>)
    ensures forall x :: x in ShapeTexts(slides) <==> exists k :: 0 <= k < |slides| && Some(x) in slides[k]
  {
    if slides != [] {
      var n := |slides| - 1;
      ShapeTextsMembers(slides[..n]);
      SlideShapeTextsMembers(slides[n]);
      forall x | (exists k :: 0 <= k < |slides| && Some(x) in slides[k])
        ensures x in ShapeTexts(slides)
      {
        var k :| 0 <= k < |slides| && Some(x) in slides[k];
        if k < n {
          assert slides[..n][k] == slides[k];
        }
      }
      forall x | x in ShapeTexts(slides[..n])
        ensures exists k :: 0 <= k < |slides| && Some(x) in slides[k]
      {
        var k :| 0 <= k < n && Some(x) in slides[..n][k];
        assert slides[..n][k] == slides[k];
      }
    }
  }

  /** The text of a PDF for indexing: its non-empty page texts, one per line.
      It is blank exactly when every page text is. */
  function PdfIndexText(pages: seq<string>): (t: string)
    ensures IsBlank(t) <==> forall k :: 0 <= k < |pages| ==> IsBlank(pages[k])
  {
    IndexTextBlank(pages);
    Join("\n", NonEmptyTexts(pages))
  }

  /** The text of a presentation for indexing: its non-empty shape texts, one
      per line. It is blank exactly when every shape text is. */
  function PptxIndexText(slides: seq<Slide>): (t: string)
    ensures IsBlank(t) <==> forall x :: x in ShapeTexts(slides) ==> IsBlank(x)
  {
    var texts := ShapeTexts(slides);
    IndexTextBlank(texts);
    Join("\n", NonEmptyTexts(texts))
  }

  /** The presentation's index text is blank exactly when every text that a
      shape of a slide holds is blank. */
  lemma PptxIndexTextBlank(slides: seq<Slide>)
    ensures IsBlank(PptxIndexText(slides)) <==>
      forall k, x :: 0 <= k < |slides| && Some(x) in slides[k] ==> IsBlank(x)
  {
    ShapeTextsMembers(slides);
  }

  // ---------- Index builder ----------

  datatype ErrorKind = FileNotFoundError | ValueError | RuntimeError | ReaderError

  /** The exception the builder raises: its class and message. */
  datatype BuildError = BuildError(kind: ErrorKind, message: string)

  /** The file the builder is given: its path, whether it exists, and what the
      reader libraries make of it. */
  datatype SourceFile = SourceFile(path: string, present: bool, content: FileContent)

  /** The suffixes the builder accepts, after lower-casing. */
  predicate IndexableSuffix(ext: string) {
    ext == ".pdf" || ext == ".pptx" || ext == ".ppt"
  }

  const UnsupportedTypeMessage := "Unsupported file type. Only .pdf and .pptx supported."
  const NoTextMessage := "No text could be extracted from the document."
  const NoChunksMessage := "No chunks generated from the document text."

  /** The text the builder extracts from an existing file of an accepted type:
      the PDF reader for ".pdf", the presentation reader for the others. */
  function ExtractedText(file: SourceFile): (r: Result<string, string>)
    ensures Lower(Suffix(file.path)) == ".pdf" ==>
      (r.Err? <==> file.content.pdfPages.Err?) &&
      (file.content.pdfPages.Ok? ==>
        (IsBlank(r.value) <==> forall k :: 0 <= k < |file.content.pdfPages.value| ==> IsBlank(file.content.pdfPages.value[k])))
    ensures Lower(Suffix(file.path)) != ".pdf" ==>
      (r.Err? <==> file.content.slides.Err?) &&
      (file.content.slides.Ok? ==>
        (IsBlank(r.value) <==> forall x :: x in ShapeTexts(file.content.slides.value) ==> IsBlank(x)))
  {
    if Lower(Suffix(file.path)) == ".pdf" then
      match file.content.pdfPages
      case Ok(pages) => Ok(PdfIndexText(pages))
      case Err(m) => Err(m)
    else
      match file.content.slides
      case Ok(slides) => Ok(PptxIndexText(slides))
      case Err(m) => Err(m)
  }

  /** Builds the chunk documents of an index, checking in order: the file
      exists, its lower-cased suffix is accepted, its text is not blank, and
      splitting the text yields chunks. Embedding the documents into the
      vector index and saving it are outside the model. */
  method BuildIndex(file: SourceFile, split: string -> seq<string>) returns (r: Result<seq<Document>, BuildError>)
    ensures !file.present <==> r == Err(BuildError(FileNotFoundError, file.path + " does not exist."))
    ensures (r.Err? && r.error.kind == ValueError)
      <==> file.present && !IndexableSuffix(Lower(Suffix(file.path)))
    ensures (r.Err? && r.error.kind == ReaderError)
      <==> file.present && IndexableSuffix(Lower(Suffix(file.path))) && ExtractedText(file).Err?
    ensures r.Err? && r.error.kind == ValueError ==> r.error.message == UnsupportedTypeMessage
    ensures r == Err(BuildError(RuntimeError, NoTextMessage))
      <==> file.present && IndexableSuffix(Lower(Suffix(file.path)))
           && ExtractedText(file).Ok? && IsBlank(ExtractedText(file).value)
    ensures r == Err(BuildError(RuntimeError, NoChunksMessage))
      <==> file.present && IndexableSuffix(Lower(Suffix(file.path)))
           && ExtractedText(file).Ok? && !IsBlank(ExtractedText(file).value)
           && split(ExtractedText(file).value) == []
    ensures r.Ok? <==>
      file.present && IndexableSuffix(Lower(Suffix(file.path)))
      && ExtractedText(file).Ok? && !IsBlank(ExtractedText(file).value)
      && split(ExtractedText(file).value) != []
    ensures r.Ok? ==>
      && file.present && IndexableSuffix(Lower(Suffix(file.path)))
      && ExtractedText(file).Ok? && !IsBlank(ExtractedText(file).value)
      && var chunks := split(ExtractedText(file).value);
      && chunks != [] && |r.value| == |chunks|
      && forall i :: 0 <= i < |chunks| ==>
           r.value[i] == Document(chunks[i], ChunkMetadata(FileName(file.path), i))
  {
    if !file.present {
      return Err(BuildError(FileNotFoundError, file.path + " does not exist."));
    }
    var ext := Lower(Suffix(file.path));
    if !IndexableSuffix(ext) {
      return Err(BuildError(ValueError, UnsupportedTypeMessage));
    }
    var extracted := ExtractedText(file);
    if extracted.Err? {
      return Err(BuildError(ReaderError, extracted.error));
    }
    var text := extracted.value;
    if IsBlank(text) {
      return Err(BuildError(RuntimeError, NoTextMessage));
    }
    var docs := MakeDocuments(split(text), FileName(file.path));
    if docs == [] {
      return Err(BuildError(RuntimeError, NoChunksMessage));
    }
    return Ok(docs);
  }
}
