/** Value types shared by both halves of the study assistant: the optional and
    error-carrying results the Python code expresses with `None` and exceptions,
    chunk metadata dictionaries, and what the PDF and PPTX reader libraries
    yield for a file. */
module Common {

  datatype Option<+T> = None | Some(value: T) {
    function GetOr(default: T): T {
      match this
      case Some(v) => v
      case None => default
    }
  }

  /** A value, or the error the Python code would raise instead. */
  datatype Result<+T, +E> = Ok(value: T) | Err(error: E)

  /** Success without a value, or the error raised. */
  datatype Outcome<+E> = Pass | Fail(error: E)

  /** A metadata value as stored with a chunk: the code stores strings and integers. */
  datatype MetaValue = Str(s: string) | Int(i: int)

  /** A chunk's metadata dictionary. */
  type Metadata = map<string, MetaValue>

  /** One slide: for each shape, `Some(shape.text)` when the shape has a `text`
      attribute and `None` when it has none. */
  type Slide = seq<Option<string>>

  /** What the reader libraries make of one file on disk: the PDF reader's
      per-page `extract_text()` results (a page without text reads as ""),
      and the presentation reader's slides; `Err(message)` when the library
      raises on the file. */
  datatype FileContent = FileContent(
    pdfPages: Result<seq<string>, string>,
    slides: Result<seq<Slide>, string>)
}
