/**
 * A BufferedReader over a file or a text blob, reduced to the sequence of
 * outcomes its readLine calls will have: a line of text or an IOException.
 * What the underlying file system does is an input of the model.
 */
module LineSources {
  import opened Wrappers
  import opened JavaLang

  datatype ReadOutcome = Line(text: string) | ReadFails

  /** The outcomes not yet read, and whether close() was called. */
  datatype Stream = Stream(pending: seq<ReadOutcome>, closed: bool)

  /** A file or blob that reads cleanly: every outcome is a line. */
  function Lines(texts: seq<string>): (r: seq<ReadOutcome>)
    ensures |r| == |texts|
    ensures forall i :: 0 <= i < |texts| ==> r[i] == Line(texts[i])
  {
    seq(|texts|, i requires 0 <= i < |texts| => Line(texts[i]))
  }

  /**
   * BufferedReader.readLine: a closed reader throws IOException; at the end
   * it returns null (None); otherwise the next outcome is consumed.
   */
  function ReadLine(s: Stream): (r: (Stream, Result<Option<string>, Exception>))
    ensures s.closed ==> r == (s, Failure(IOException))
    ensures !s.closed && s.pending == [] ==> r == (s, Success(None))
    ensures !s.closed && s.pending != [] ==> r.0 == Stream(s.pending[1..], false)
    ensures !s.closed && s.pending != [] && s.pending[0].Line? ==> r.1 == Success(Some(s.pending[0].text))
    ensures r.1.Failure? ==> r.1.error == IOException
    ensures r.1.Success? && r.1.value.None? ==> r.0 == s
  {
    if s.closed then (s, Failure(IOException))
    else if s.pending == [] then (s, Success(None))
    else match s.pending[0]
      case Line(t) => (Stream(s.pending[1..], false), Success(Some(t)))
      case ReadFails => (Stream(s.pending[1..], false), Failure(IOException))
  }

  /** BufferedReader.close: further reads throw. */
  function Close(s: Stream): (r: Stream)
    ensures r.closed && r.pending == s.pending
  {
    s.(closed := true)
  }
}
