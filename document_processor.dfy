/** The backend's document processor: the sliding-window chunker, the text
    assembly of the PDF and PPTX extractors over the page and slide texts the
    reader libraries yield, and the dispatch on the file's suffix. */
module DocumentProcessor {
  import opened Common
  import opened Text

  // ---------- Sliding-window chunker ----------

  /** Python's `s[start:end]` for a non-negative `start`: a negative `end`
      counts from the back, and both ends are clamped to the string. */
  function Slice(s: string, start: nat, end: int): (w: string)
    ensures |w| <= |s|
  {
    var e := if end < 0 then (if end + |s| < 0 then 0 else end + |s|)
             else if end > |s| then |s| else end;
    if start >= e then [] else s[start..e]
  }

  /** The chunks the loop has emitted once it reaches window start `start`
      with `acc` emitted so far: every later window `text[start:start+size]`
      that is not blank is appended, the start advancing by `step`. */
  function ChunksAcc(text: string, size: int, step: nat, start: nat, acc: seq<string>): seq<string>
    requires step > 0
    decreases |text| - start
  {
    if start >= |text| then acc
    else
      var w := Slice(text, start, start + size);
      ChunksAcc(text, size, step, start + step, if IsBlank(w) then acc else acc + [w])
  }

  /** The chunks of `text`: windows of `size` characters starting every
      `size - overlap` characters, blank windows dropped. */
  function Chunks(text: string, size: int, overlap: int): seq<string>
    requires size - overlap > 0
  {
    ChunksAcc(text, size, size - overlap, 0, [])
  }

  /** Splits text into overlapping chunks. The source does not check that the
      window advances; with `chunkSize - overlap <= 0` its loop never ends,
      so that is required here. */
  method ChunkText(text: string, chunkSize: int, overlap: int) returns (chunks: seq<string>)
    requires chunkSize - overlap > 0
    ensures text == [] ==> chunks == []
    ensures chunks == Chunks(text, chunkSize, overlap)
  {
    if |text| == 0 {
      return [];
    }
    chunks := [];
    var start: nat := 0;
    var textLength := |text|;
    while start < textLength
      invariant ChunksAcc(text, chunkSize, chunkSize - overlap, start, chunks) == Chunks(text, chunkSize, overlap)
      decreases textLength - start
    {
      var end := start + chunkSize;
      var chunk := Slice(text, start, end);
      if !IsBlank(chunk) {
        chunks := chunks + [chunk];
      }
      start := start + (chunkSize - overlap);
    }
  }

  // ---------- Windows: every window, blank or not ----------

  /** Every window from start `start` on, blank or not, in window order. */
  function WindowsFrom(text: string, size: int, step: nat, start: nat): seq<string>
    requires step > 0
    decreases |text| - start
  {
    if start >= |text| then []
    else [Slice(text, start, start + size)] + WindowsFrom(text, size, step, start + step)
  }

  /** Every window of the chunker over `text`. */
  function ChunkWindows(text: string, size: int, overlap: int): seq<string>
    requires size - overlap > 0
  {
    WindowsFrom(text, size, size - overlap, 0)
  }

  /** No string of the sequence is blank. */
  predicate NoneBlank(ws: seq<string>) {
    forall k :: 0 <= k < |ws| ==> !IsBlank(ws[k])
  }

  /** The non-blank strings of a sequence, in order. */
  function NonBlank(ws: seq<string>): seq<string> {
    if ws == [] then []
    else (if IsBlank(ws[0]) then [] else [ws[0]]) + NonBlank(ws[1..])
  }

  /** `NonBlank` keeps only non-blank members of its input. */
  lemma {:induction false} NonBlankMembers(ws: seq<string>)
    ensures |NonBlank(ws)| <= |ws|
    ensures forall j :: 0 <= j < |NonBlank(ws)| ==> NonBlank(ws)[j] in ws && !IsBlank(NonBlank(ws)[j])
  {
    if ws != [] {
      var tail := ws[1..];
      NonBlankMembers(tail);
      var r, rest := NonBlank(ws), NonBlank(tail);
      var kept := if IsBlank(ws[0]) then [] else [ws[0]];
      assert r == kept + rest;
      forall j | 0 <= j < |r|
        ensures r[j] in ws && !IsBlank(r[j])
      {
        if j >= |kept| {
          assert r[j] == rest[j - |kept|];
          assert rest[j - |kept|] in tail;
        }
      }
    }
  }

  /** When no member is blank, `NonBlank` keeps them all. */
  lemma {:induction false} NonBlankKeepsAll(ws: seq<string>)
    requires NoneBlank(ws)
    ensures NonBlank(ws) == ws
  {
    if ws != [] {
      var tail := ws[1..];
      assert forall k :: 0 <= k < |tail| ==> tail[k] == ws[k + 1];
      NonBlankKeepsAll(tail);
      assert ws == [ws[0]] + tail;
    }
  }

  /** `NonBlank` is empty exactly when every member is blank. */
  lemma {:induction false} NonBlankEmpty(ws: seq<string>)
    ensures NonBlank(ws) == [] <==> forall k :: 0 <= k < |ws| ==> IsBlank(ws[k])
  {
    if ws != [] {
      var tail := ws[1..];
      assert forall k :: 0 <= k < |tail| ==> tail[k] == ws[k + 1];
      NonBlankEmpty(tail);
      if forall k :: 0 <= k < |tail| ==> IsBlank(tail[k]) {
        if IsBlank(ws[0]) {
          assert forall k :: 0 <= k < |ws| ==> IsBlank(ws[k]) by {
            forall k | 0 <= k < |ws| ensures IsBlank(ws[k]) {
              if k > 0 { assert ws[k] == tail[k - 1]; }
            }
          }
        }
      }
    }
  }

  /** One step of `WindowsFrom`: the window at `start`, then the windows after it. */
  lemma WindowsFromUnfold(text: string, size: int, step: nat, start: nat)
    requires step > 0 && start < |text|
    ensures WindowsFrom(text, size, step, start) != []
    ensures WindowsFrom(text, size, step, start)[0] == Slice(text, start, start + size)
    ensures WindowsFrom(text, size, step, start)[1..] == WindowsFrom(text, size, step, start + step)
  {
  }

  lemma ConcatAssoc<T>(a: seq<T>, b: seq<T>, c: seq<T>)
    ensures (a + b) + c == a + (b + c)
  {
  }

  /** The chunker's accumulator run from `start` appends the non-blank windows
      from `start` on to what it has gathered. */
  lemma {:induction false} ChunksAccWindows(text: string, size: int, step: nat, start: nat, acc: seq<string>)
    requires step > 0
    ensures ChunksAcc(text, size, step, start, acc) == acc + NonBlank(WindowsFrom(text, size, step, start))
    decreases |text| - start
  {
    if start < |text| {
      var w := Slice(text, start, start + size);
      var kept := if IsBlank(w) then [] else [w];
      ChunksAccWindows(text, size, step, start + step, acc + kept);
      var ws := WindowsFrom(text, size, step, start);
      WindowsFromUnfold(text, size, step, start);
      var rest := NonBlank(WindowsFrom(text, size, step, start + step));
      assert NonBlank(ws) == kept + rest;
      assert (if IsBlank(w) then acc else acc + [w]) == acc + kept;
      ConcatAssoc(acc, kept, rest);
    } else {
      assert acc + [] == acc;
    }
  }

  /** The chunker keeps exactly the non-blank windows, in window order; when
      no window is blank the chunks are the windows. */
  lemma ChunksAreNonBlankWindows(text: string, size: int, overlap: int)
    requires size - overlap > 0
    ensures Chunks(text, size, overlap) == NonBlank(ChunkWindows(text, size, overlap))
    ensures NoneBlank(ChunkWindows(text, size, overlap)) ==> Chunks(text, size, overlap) == ChunkWindows(text, size, overlap)
  {
    ChunksAccWindows(text, size, size - overlap, 0, []);
    if NoneBlank(ChunkWindows(text, size, overlap)) {
      NonBlankKeepsAll(ChunkWindows(text, size, overlap));
    }
  }

  lemma {:induction false} WindowsFromCount(text: string, size: int, step: nat, start: nat)
    requires step > 0
    ensures start >= |text| ==> |WindowsFrom(text, size, step, start)| == 0
    ensures start < |text| ==> var n := |WindowsFrom(text, size, step, start)|;
      (n - 1) * step < |text| - start <= n * step
    decreases |text| - start
  {
    if start < |text| {
      WindowsFromCount(text, size, step, start + step);
      var n := |WindowsFrom(text, size, step, start + step)|;
      assert (n + 1) * step == n * step + step;
    }
  }

  /** The number of windows `n` is the least with `n * step >= |text|`, that
      is ceil(|text| / step): one window per start 0, step, 2*step, ... below
      the length. */
  lemma WindowCount(text: string, size: int, overlap: int)
    requires size - overlap > 0
    ensures var n := |ChunkWindows(text, size, overlap)|;
      n * (size - overlap) >= |text| && (n == 0 || (n - 1) * (size - overlap) < |text|)
  {
    WindowsFromCount(text, size, size - overlap, 0);
  }

  lemma MulSucc(k: nat, step: nat)
    ensures 0 <= k * step && (k + 1) * step == k * step + step
  {
  }

  /** `k * step`, by repeated addition. */
  function Offset(k: nat, step: nat): nat {
    if k == 0 then 0 else Offset(k - 1, step) + step
  }

  lemma {:induction false} OffsetIsProduct(k: nat, step: nat)
    ensures Offset(k, step) == k * step
  {
    if k > 0 {
      OffsetIsProduct(k - 1, step);
      MulSucc(k - 1, step);
    }
  }

  lemma {:induction false} WindowsFromShift(text: string, size: int, step: nat, start: nat, k: nat)
    requires step > 0
    requires k < |WindowsFrom(text, size, step, start)|
    ensures start + Offset(k, step) < |text|
    ensures WindowsFrom(text, size, step, start)[k] == WindowsFrom(text, size, step, start + Offset(k, step))[0]
    decreases k
  {
    if k > 0 {
      var ws := WindowsFrom(text, size, step, start);
      WindowsFromUnfold(text, size, step, start);
      WindowsFromShift(text, size, step, start + step, k - 1);
      assert ws[k] == ws[1..][k - 1];
      assert start + Offset(k, step) == (start + step) + Offset(k - 1, step);
    }
  }

  lemma WindowsFromAt(text: string, size: int, step: nat, start: nat, k: nat)
    requires step > 0
    requires k < |WindowsFrom(text, size, step, start)|
    ensures start + Offset(k, step) < |text|
    ensures WindowsFrom(text, size, step, start)[k] == Slice(text, start + Offset(k, step), start + Offset(k, step) + size)
  {
    WindowsFromShift(text, size, step, start, k);
    WindowsFromUnfold(text, size, step, start + Offset(k, step));
  }

  /** Window `k` is the text from `k * step` on, `size` characters long or cut
      short by the end of the text. */
  lemma WindowAt(text: string, size: int, overlap: int, k: nat)
    requires 0 < size && size - overlap > 0
    requires k < |ChunkWindows(text, size, overlap)|
    ensures var s := k * (size - overlap);
      0 <= s < |text| &&
      ChunkWindows(text, size, overlap)[k] == text[s .. if s + size <= |text| then s + size else |text|]
  {
    var step := size - overlap;
    WindowsFromAt(text, size, step, 0, k);
    OffsetIsProduct(k, step);
    var s := k * step;
    assert ChunkWindows(text, size, overlap)[k] == Slice(text, s, s + size);
  }

  /** Every chunk is non-empty and at most `size` long; a window that ends
      inside the text is exactly `size` long. */
  lemma ChunkLengths(text: string, size: int, overlap: int)
    requires 0 < size && size - overlap > 0
    ensures forall j :: 0 <= j < |Chunks(text, size, overlap)| ==> 0 < |Chunks(text, size, overlap)[j]| <= size
    ensures forall k: nat :: k < |ChunkWindows(text, size, overlap)| && k * (size - overlap) + size <= |text| ==>
      |ChunkWindows(text, size, overlap)[k]| == size
  {
    var ws := ChunkWindows(text, size, overlap);
    forall k: nat | k < |ws|
      ensures 0 < |ws[k]| <= size
      ensures k * (size - overlap) + size <= |text| ==> |ws[k]| == size
    {
      WindowAt(text, size, overlap, k);
    }
    ChunksAreNonBlankWindows(text, size, overlap);
    NonBlankMembers(ws);
  }

  /** A text no longer than one step that is not blank is a single chunk, itself. */
  lemma SmallTextSingleChunk(text: string, size: int, overlap: int)
    requires 0 <= overlap < size
    requires |text| <= size - overlap
    requires !IsBlank(text)
    ensures Chunks(text, size, overlap) == [text]
  {
    var step := size - overlap;
    assert Slice(text, 0, size) == text[0..|text|] == text;
    assert ChunksAcc(text, size, step, step, [text]) == [text];
    assert ChunksAcc(text, size, step, 0, []) == ChunksAcc(text, size, step, step, [] + [text]);
    assert [] + [text] == [text];
  }

  /** The first `n` characters of a chunk, or all of it when shorter. */
  function Head(c: string, n: nat): string {
    if n <= |c| then c[..n] else c
  }

  /** The concatenation of the first `n` characters of each chunk. */
  function ConcatHeads(cs: seq<string>, n: nat): string {
    if cs == [] then "" else Head(cs[0], n) + ConcatHeads(cs[1..], n)
  }

  lemma ConcatHeadsCons(ws: seq<string>, n: nat)
    requires ws != []
    ensures ConcatHeads(ws, n) == Head(ws[0], n) + ConcatHeads(ws[1..], n)
  {
  }

  lemma SplitSuffix(s: string, a: nat, b: nat)
    requires a <= b <= |s|
    ensures s[a..] == s[a..b] + s[b..]
  {
  }

  /** The first `step` characters of a window are the text up to the next
      window's start, or to the end of the text. */
  lemma HeadOfWindow(text: string, size: int, step: nat, start: nat)
    requires 0 < step <= size && start < |text|
    ensures Head(Slice(text, start, start + size), step) == text[start .. if start + step <= |text| then start + step else |text|]
  {
  }

  lemma {:induction false} HeadsFrom(text: string, size: int, step: nat, start: nat)
    requires 0 < step <= size
    requires start <= |text|
    ensures ConcatHeads(WindowsFrom(text, size, step, start), step) == text[start..]
    decreases |text| - start
  {
    if start < |text| {
      var ws := WindowsFrom(text, size, step, start);
      WindowsFromUnfold(text, size, step, start);
      var e := if start + step <= |text| then start + step else |text|;
      HeadOfWindow(text, size, step, start);
      ConcatHeadsCons(ws, step);
      if start + step <= |text| {
        HeadsFrom(text, size, step, start + step);
      } else {
        assert WindowsFrom(text, size, step, start + step) == [];
        assert text[e..] == [];
      }
      assert ConcatHeads(ws[1..], step) == text[e..];
      SplitSuffix(text, start, e);
    }
  }

  /** Coverage: when no window is blank and the overlap is not negative, the
      first `size - overlap` characters of the chunks, concatenated, give back
      the text. */
  lemma ChunksCoverText(text: string, size: int, overlap: int)
    requires 0 <= overlap < size
    requires NoneBlank(ChunkWindows(text, size, overlap))
    ensures ConcatHeads(Chunks(text, size, overlap), size - overlap) == text
  {
    ChunksAreNonBlankWindows(text, size, overlap);
    HeadsFrom(text, size, size - overlap, 0);
  }

  /** Every full-length string of `ws` ends with the `overlap` characters
      the next one starts with. */
  predicate OverlapChain(ws: seq<string>, size: int, overlap: int)
    requires 0 <= overlap < size
  {
    forall j :: 0 <= j < |ws| - 1 && |ws[j]| == size ==>
      |ws[j + 1]| >= overlap && ws[j][size - overlap..] == ws[j + 1][..overlap]
  }

  lemma {:induction false} WindowsFromOverlap(text: string, size: int, overlap: int, start: nat)
    requires 0 <= overlap < size
    ensures OverlapChain(WindowsFrom(text, size, size - overlap, start), size, overlap)
    decreases |text| - start
  {
    var step := size - overlap;
    var ws := WindowsFrom(text, size, step, start);
    if start < |text| {
      WindowsFromOverlap(text, size, overlap, start + step);
      var rest := WindowsFrom(text, size, step, start + step);
      assert ws[1..] == rest;
      forall j | 0 <= j < |ws| - 1 && |ws[j]| == size
        ensures |ws[j + 1]| >= overlap && ws[j][step..] == ws[j + 1][..overlap]
      {
        if j == 0 {
          assert ws[0] == text[start..start + size];
          var e := if start + step + size <= |text| then start + step + size else |text|;
          assert ws[1] == text[start + step..e];
          assert ws[0][step..] == text[start + step..start + size];
          assert ws[1][..overlap] == text[start + step..start + size];
        } else {
          assert ws[j] == rest[j - 1] && ws[j + 1] == rest[j];
          assert 0 <= j - 1 < |rest| - 1 && |rest[j - 1]| == size;
        }
      }
    }
  }

  /** When no window is blank, a full-length chunk and the chunk after it share
      exactly `overlap` characters: the tail of one is the head of the next. */
  lemma ConsecutiveChunksOverlap(text: string, size: int, overlap: int)
    requires 0 <= overlap < size
    requires NoneBlank(ChunkWindows(text, size, overlap))
    ensures OverlapChain(Chunks(text, size, overlap), size, overlap)
  {
    ChunksAreNonBlankWindows(text, size, overlap);
    WindowsFromOverlap(text, size, overlap, 0);
  }

  lemma {:induction false} NonBlankWindowFrom(text: string, size: int, step: nat, start: nat, p: nat)
    requires 0 < step <= size
    requires start <= p < |text| && !IsSpace(text[p])
    ensures NonBlank(WindowsFrom(text, size, step, start)) != []
    decreases p - start
  {
    var ws := WindowsFrom(text, size, step, start);
    if p < start + step {
      var e := if start + size <= |text| then start + size else |text|;
      assert ws[0] == text[start..e];
      NotBlankAt(ws[0], p - start);
    } else {
      NonBlankWindowFrom(text, size, step, start + step, p);
      assert ws[1..] == WindowsFrom(text, size, step, start + step);
    }
  }

  /** A text that is not blank yields at least one chunk when the overlap is
      not negative: some window covers each of its characters. */
  lemma NonBlankTextHasChunk(text: string, size: int, overlap: int)
    requires 0 <= overlap < size
    requires !IsBlank(text)
    ensures Chunks(text, size, overlap) != []
  {
    BlankAll(text);
    var p :| 0 <= p < |text| && !IsSpace(text[p]);
    NonBlankWindowFrom(text, size, size - overlap, 0, p);
    ChunksAreNonBlankWindows(text, size, overlap);
  }

  /** A text without whitespace keeps every window. */
  lemma NoSpaceTextKeepsAllWindows(text: string, size: int, overlap: int)
    requires 0 < size && size - overlap > 0
    requires forall i :: 0 <= i < |text| ==> !IsSpace(text[i])
    ensures Chunks(text, size, overlap) == ChunkWindows(text, size, overlap)
  {
    var ws := ChunkWindows(text, size, overlap);
    forall k | 0 <= k < |ws| ensures !IsBlank(ws[k]) {
      WindowAt(text, size, overlap, k);
      NotBlankAt(ws[k], 0);
    }
    ChunksAreNonBlankWindows(text, size, overlap);
  }

  /** 1500 characters at size 500 and overlap 100 give 4 chunks. */
  lemma FifteenHundredCharsGiveFourChunks()
    ensures |Chunks(seq(1500, _ => 'A'), 500, 100)| == 4
  {
    NoSpaceTextKeepsAllWindows(seq(1500, _ => 'A'), 500, 100);
    WindowCount(seq(1500, _ => 'A'), 500, 100);
  }

  /** 200 digits at size 50 and overlap 10 give 5 chunks: four of 50
      characters and a last one of 40. */
  lemma TwoHundredDigitsChunks()
    ensures var cs := Chunks(seq(200, i => DigitChar(i % 10)), 50, 10);
      |cs| == 5 && (forall j :: 0 <= j < 4 ==> |cs[j]| == 50) && |cs[4]| == 40
  {
    var text := seq(200, i => DigitChar(i % 10));
    NoSpaceTextKeepsAllWindows(text, 50, 10);
    WindowCount(text, 50, 10);
    ChunkLengths(text, 50, 10);
    WindowAt(text, 50, 10, 4);
  }

  /** "Small text" at size 100 and overlap 20 is one chunk, itself. */
  lemma SmallTextExample()
    ensures Chunks("Small text", 100, 20) == ["Small text"]
  {
    NotBlankAt("Small text", 0);
    SmallTextSingleChunk("Small text", 100, 20);
  }

  // ---------- PDF and PPTX text assembly ----------

  function PageHeader(pageNumber: nat): string {
    "\n--- Page " + NatToString(pageNumber) + " ---\n"
  }

  /** The PDF text: for each page with text, in page order, a header carrying
      its 1-based page number followed by the page's text. */
  function PdfText(pages: seq<string>): string {
    if pages == [] then ""
    else
      var n := |pages| - 1;
      PdfText(pages[..n]) + (if pages[n] != "" then PageHeader(n + 1) + pages[n] else "")
  }

  method ExtractTextFromPdf(pages: seq<string>) returns (text: string)
    ensures text == PdfText(pages)
  {
    text := "";
    for pageNum := 0 to |pages|
      invariant text == PdfText(pages[..pageNum])
    {
      assert pages[..pageNum + 1][..pageNum] == pages[..pageNum];
      var pageText := pages[pageNum];
      if pageText != "" {
        text := text + ("\n--- Page " + NatToString(pageNum + 1) + " ---\n" + pageText);
      }
    }
    assert pages[..|pages|] == pages;
  }

  /** Both headers open with a newline and a dash. */
  lemma HeadersOpenWithDash(n: nat)
    ensures |PageHeader(n)| > 1 && PageHeader(n)[0] == '\n' && PageHeader(n)[1] == '-'
    ensures |SlideHeader(n)| > 1 && SlideHeader(n)[0] == '\n' && SlideHeader(n)[1] == '-'
  {
    var p := "\n--- Page ";
    assert PageHeader(n) == p + (NatToString(n) + " ---\n");
    assert (p + (NatToString(n) + " ---\n"))[0] == p[0];
    assert (p + (NatToString(n) + " ---\n"))[1] == p[1];
    var q := "\n--- Slide ";
    assert SlideHeader(n) == q + (NatToString(n) + " ---\n");
    assert (q + (NatToString(n) + " ---\n"))[0] == q[0];
    assert (q + (NatToString(n) + " ---\n"))[1] == q[1];
  }

  lemma HeaderNotBlank(h: string, rest: string)
    requires |h| > 1 && h[1] == '-'
    ensures !IsBlank(h + rest)
  {
    NotBlankAt(h + rest, 1);
  }

  /** No page has any text. */
  predicate NoPageText(pages: seq<string>) {
    forall k :: 0 <= k < |pages| ==> pages[k] == ""
  }

  lemma NoPageTextSnoc(pages: seq<string>)
    requires pages != []
    ensures NoPageText(pages) <==> NoPageText(pages[..|pages| - 1]) && pages[|pages| - 1] == ""
  {
    var n := |pages| - 1;
    assert forall k :: 0 <= k < n ==> pages[..n][k] == pages[k];
  }

  /** The PDF text is blank exactly when no page has text: a page with text,
      even whitespace only, contributes its header. */
  lemma {:induction false} PdfTextBlank(pages: seq<string>)
    ensures IsBlank(PdfText(pages)) <==> NoPageText(pages)
  {
    if pages != [] {
      var n := |pages| - 1;
      PdfTextBlank(pages[..n]);
      NoPageTextSnoc(pages);
      var section := if pages[n] != "" then PageHeader(n + 1) + pages[n] else "";
      BlankConcat(PdfText(pages[..n]), section);
      if pages[n] != "" {
        HeadersOpenWithDash(n + 1);
        HeaderNotBlank(PageHeader(n + 1), pages[n]);
      }
    }
  }

  function SlideHeader(slideNumber: nat): string {
    "\n--- Slide " + NatToString(slideNumber) + " ---\n"
  }

  /** The text of one slide's shapes: each shape that has text, followed by a newline. */
  function ShapesText(shapes: Slide): string {
    if shapes == [] then ""
    else
      ShapesText(shapes[..|shapes| - 1])
      + (match shapes[|shapes| - 1] case Some(t) => t + "\n" case None => "")
  }

  /** The PPTX text: for every slide, in order, a header with its 1-based
      number followed by its shapes' text. */
  function PptxText(slides: seq<Slide>): string {
    if slides == [] then ""
    else
      var n := |slides| - 1;
      PptxText(slides[..n]) + SlideHeader(n + 1) + ShapesText(slides[n])
  }

  method ExtractTextFromPptx(slides: seq<Slide>) returns (text: string)
    ensures text == PptxText(slides)
  {
    text := "";
    for slideNum := 0 to |slides|
      invariant text == PptxText(slides[..slideNum])
    {
      assert slides[..slideNum + 1][..slideNum] == slides[..slideNum];
      var slide := slides[slideNum];
      text := text + ("\n--- Slide " + NatToString(slideNum + 1) + " ---\n");
      for j := 0 to |slide|
        invariant text == PptxText(slides[..slideNum]) + SlideHeader(slideNum + 1) + ShapesText(slide[..j])
      {
        assert slide[..j + 1][..j] == slide[..j];
        match slide[j]
        case Some(t) => text := text + (t + "\n");
        case None =>
      }
      assert slide[..|slide|] == slide;
    }
    assert slides[..|slides|] == slides;
  }

  /** The PPTX text is blank exactly when there are no slides: every slide
      contributes its header. */
  lemma PptxTextBlank(slides: seq<Slide>)
    ensures IsBlank(PptxText(slides)) <==> slides == []
  {
    if slides != [] {
      var n := |slides| - 1;
      var h := SlideHeader(n + 1);
      HeadersOpenWithDash(n + 1);
      HeaderNotBlank(h, ShapesText(slides[n]));
      BlankConcat(PptxText(slides[..n]), h + ShapesText(slides[n]));
      ConcatAssoc(PptxText(slides[..n]), h, ShapesText(slides[n]));
    }
  }

  // ---------- Dispatch on the suffix ----------

  datatype Format = Pdf | Pptx

  /** The exceptions `process_document` lets out: the unsupported-format
      `ValueError`, or whatever the reader library raises, by message. */
  datatype ProcessError = UnsupportedFormat(message: string) | ReaderFailure(message: string)

  const UnsupportedFormatPrefix := "Unsupported file format: "

  /** Chooses the extractor from the lower-cased suffix: only ".pdf" and ".pptx". */
  function Dispatch(path: string): (r: Result<Format, ProcessError>)
    ensures r == Ok(Pdf) <==> Lower(Suffix(path)) == ".pdf"
    ensures r == Ok(Pptx) <==> Lower(Suffix(path)) == ".pptx"
    ensures r.Err? ==> r.error == UnsupportedFormat(UnsupportedFormatPrefix + Lower(Suffix(path)))
  {
    var ext := Lower(Suffix(path));
    if ext == ".pdf" then Ok(Pdf)
    else if ext == ".pptx" then Ok(Pptx)
    else Err(UnsupportedFormat(UnsupportedFormatPrefix + ext))
  }

  /** The text `process_document` returns for a file, or the error it raises. */
  function DocumentText(path: string, content: FileContent): Result<string, ProcessError> {
    match Dispatch(path)
    case Err(e) => Err(e)
    case Ok(Pdf) =>
      (match content.pdfPages
       case Ok(pages) => Ok(PdfText(pages))
       case Err(m) => Err(ReaderFailure(m)))
    case Ok(Pptx) =>
      (match content.slides
       case Ok(slides) => Ok(PptxText(slides))
       case Err(m) => Err(ReaderFailure(m)))
  }

  /** Extracts the text of a document with the extractor its suffix selects;
      any other suffix is refused before a reader is consulted. */
  method ProcessDocument(path: string, content: FileContent) returns (r: Result<string, ProcessError>)
    ensures r == DocumentText(path, content)
    ensures (r.Err? && r.error.UnsupportedFormat?) <==> Dispatch(path).Err?
    ensures Dispatch(path) == Ok(Pdf) && content.pdfPages.Ok? ==> r == Ok(PdfText(content.pdfPages.value))
    ensures Dispatch(path) == Ok(Pptx) && content.slides.Ok? ==> r == Ok(PptxText(content.slides.value))
  {
    var format := Dispatch(path);
    match format
    case Err(e) =>
      return Err(e);
    case Ok(Pdf) =>
      match content.pdfPages {
        case Err(m) => return Err(ReaderFailure(m));
        case Ok(pages) =>
          var text := ExtractTextFromPdf(pages);
          return Ok(text);
      }
    case Ok(Pptx) =>
      match content.slides {
        case Err(m) => return Err(ReaderFailure(m));
        case Ok(slides) =>
          var text := ExtractTextFromPptx(slides);
          return Ok(text);
      }
  }

  lemma TxtSuffix()
    ensures Suffix("test.txt") == ".txt"
  {
    var name := "test.txt";
    assert name[0] == 't' && name[1] == 'e' && name[2] == 's' && name[3] == 't';
    assert name[4] == '.' && name[5] == 't' && name[6] == 'x' && name[7] == 't';
    SuffixOfPlainName(name, 4);
    assert name[4..] == ".txt";
  }

  lemma LowerTxt()
    ensures Lower(".txt") == ".txt"
  {
    var l := Lower(".txt");
    assert |l| == 4 && l[0] == '.' && l[1] == 't' && l[2] == 'x' && l[3] == 't';
  }

  /** A ".txt" file is refused with the unsupported-format error. */
  lemma TextFileUnsupported()
    ensures Dispatch("test.txt") == Err(UnsupportedFormat(UnsupportedFormatPrefix + ".txt"))
  {
    TxtSuffix();
    LowerTxt();
    assert ".txt" != ".pdf" by { assert ".txt"[1] != ".pdf"[1]; }
    assert ".txt" != ".pptx" by { assert |".txt"| != |".pptx"|; }
  }

  lemma PptSuffix()
    ensures Suffix("deck.ppt") == ".ppt"
  {
    var name := "deck.ppt";
    assert name[0] == 'd' && name[1] == 'e' && name[2] == 'c' && name[3] == 'k';
    assert name[4] == '.' && name[5] == 'p' && name[6] == 'p' && name[7] == 't';
    SuffixOfPlainName(name, 4);
    assert name[4..] == ".ppt";
  }

  /** The legacy ".ppt" format is refused as well. */
  lemma LegacyPowerPointUnsupported()
    ensures Dispatch("deck.ppt").Err?
  {
    PptSuffix();
    var ext := Lower(".ppt");
    assert |ext| == 4 && ext[2] == 'p';
    assert ext != ".pdf" by { assert ".pdf"[2] == 'd'; }
  }
}
