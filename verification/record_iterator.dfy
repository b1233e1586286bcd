/**
 * The state and the shared operations of the two look-ahead readers,
 * SimpleCSVReader and SimpleReader: the file opened (none for a text blob),
 * the line stream, the header, the buffered row and the line count. The two
 * readers differ only in the type R of a row and in how a row is read.
 */
module RecordIterator {
  import opened Wrappers
  import opened JavaLang
  import opened LineSources

  type Splitter = string -> seq<string>

  /** A reader's fields; None stands for null. */
  datatype Reader<R> = Reader(
    file: Option<string>,
    stream: Option<Stream>,
    header: Option<seq<string>>,
    lookahead: Option<R>,
    lineNumber: int)

  /** open(String): read from the blob, with no file, no header read and no row buffered. */
  function OpenText<R>(r: Reader<R>, blob: seq<ReadOutcome>): (res: Reader<R>)
    ensures res.file.None? && res.stream == Some(Stream(blob, false))
    ensures res.header == r.header && res.lookahead == r.lookahead && res.lineNumber == r.lineNumber
  {
    r.(file := None, stream := Some(Stream(blob, false)))
  }

  /** hasNext: a row is buffered. */
  predicate HasNext<R>(r: Reader<R>)
  {
    r.lookahead.Some?
  }

  /** getFileName: the name of the file, or NullPointerException when there is none. */
  function FileName<R>(r: Reader<R>): (res: Result<string, Exception>)
    ensures res.Success? <==> r.file.Some?
    ensures res.Success? ==> res.value == r.file.value
  {
    match r.file
    case None => Failure(NullPointer)
    case Some(f) => Success(f)
  }

  /** close: closes the stream if there is one, and changes nothing else. */
  function CloseReader<R>(r: Reader<R>): (res: Reader<R>)
    ensures r.stream.None? ==> res == r
    ensures r.stream.Some? ==> res.stream.Some? && res.stream.value.closed
    ensures res == r.(stream := res.stream)
  {
    match r.stream
    case None => r
    case Some(s) => r.(stream := Some(Close(s)))
  }

  /** Closing twice is closing once, and a closed reader keeps the lines it had not read. */
  lemma CloseIdempotent<R>(r: Reader<R>)
    ensures CloseReader(CloseReader(r)) == CloseReader(r)
    ensures r.stream.Some? ==> CloseReader(r).stream.value.pending == r.stream.value.pending
  {
  }
}
