/**
 * The shared Lucene IndexWriter, reduced to what the workers can observe:
 * whether it is open and which documents it has accepted. The accepted
 * documents are not the committed index: a close after an out-of-memory
 * error rolls back to the last commit, which the model does not follow.
 */
module IndexWriterModel {
  import opened Wrappers
  import opened JavaLang
  import opened Documents

  datatype Writer = Writer(open: bool, documents: seq<Document>)

  /**
   * What IndexWriter.addDocument does on an open writer; the engine decides,
   * so the outcome is an input of the model. AddRejected stands for the
   * unchecked IllegalArgumentException with which Lucene refuses a document,
   * for instance one holding an indexed term longer than 32766 bytes.
   */
  datatype AddOutcome = Added | AddFailsIo | AddOutOfMemory | AddRejected

  /**
   * IndexWriter.addDocument: a closed writer throws AlreadyClosedException;
   * an open one accepts the document or throws what the outcome says.
   */
  function AddDocument(w: Writer, doc: Document, outcome: AddOutcome): (r: Result<Writer, Exception>)
    ensures r.Success? <==> w.open && outcome == Added
    ensures r.Success? ==> r.value == w.(documents := w.documents + [doc])
    ensures !w.open ==> r == Failure(AlreadyClosed)
    ensures w.open && outcome == AddRejected ==> r == Failure(IllegalArgument)
  {
    if !w.open then Failure(AlreadyClosed)
    else match outcome
      case Added => Success(w.(documents := w.documents + [doc]))
      case AddFailsIo => Failure(IOException)
      case AddOutOfMemory => Failure(OutOfMemory)
      case AddRejected => Failure(IllegalArgument)
  }

  /** The worker's buffer, the writer, and the exception that escaped run(), if any. */
  datatype RunResult = RunResult(buffer: Option<Document>, writer: Writer, error: Option<Exception>)
}
