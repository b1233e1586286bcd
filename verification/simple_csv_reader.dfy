/**
 * SimpleCSVReader: a look-ahead iterator over the lines of a file. The
 * first line is the header; one data row is always buffered, so hasNext is
 * a null check; lines are counted, the header being line 1. How a line is
 * cut into fields (String.split for the header, a Scanner for the rows) is
 * a parameter of the model.
 */
module SimpleCsvReader {
  import opened Wrappers
  import opened JavaLang
  import opened LineSources
  import opened RecordIterator

  /** A row is the array of its fields. */
  type CsvReader = Reader<seq<string>>

  /** A freshly constructed reader: every field null, line number 0. */
  const Fresh: CsvReader := Reader(None, None, None, None, 0)

  /**
   * The private readLine: read a line and split it; null at the end of input.
   * An IOException is logged and read as the end of input, but the log call
   * asks for the file name, which throws NullPointerException when the reader
   * was opened on a text blob. A reader never opened has no stream to read.
   */
  function ReadRow(r: CsvReader, rowSplit: Splitter): (res: (CsvReader, Result<Option<seq<string>>, Exception>))
    ensures res.0 == r.(stream := res.0.stream)
    ensures r.stream.None? ==> res == (r, Failure(NullPointer))
    ensures res.1.Failure? ==> res.1.error == NullPointer
    ensures r.file.Some? && r.stream.Some? ==> res.1.Success?
  {
    match r.stream
    case None => (r, Failure(NullPointer))
    case Some(s) =>
      var (s', line) := ReadLine(s);
      var r' := r.(stream := Some(s'));
      match line
      case Failure(_) => if r.file.None? then (r', Failure(NullPointer)) else (r', Success(None))
      case Success(None) => (r', Success(None))
      case Success(Some(t)) => (r', Success(Some(rowSplit(t))))
  }

  /**
   * open(File): remember the file, open it (a missing file throws), read
   * and split the header (an empty file makes readLine return null, so split
   * throws NullPointerException), count it as a line and buffer the next row.
   * `content` is None when the file cannot be opened. The line number is not
   * reset: it counts on from whatever the reader had counted before.
   */
  function Open(r: CsvReader, name: string, content: Option<seq<ReadOutcome>>,
                headerSplit: Splitter, rowSplit: Splitter): (res: (CsvReader, Option<Exception>))
    ensures res.0.file == Some(name)
    ensures content.None? ==> res == (r.(file := Some(name)), Some(IOException))
    ensures res.1.None? ==> res.0.lineNumber == r.lineNumber + 1 && res.0.header.Some?
    ensures content.Some? && content.value == [] ==> res.1 == Some(NullPointer)
  {
    var r1 := r.(file := Some(name));
    match content
    case None => (r1, Some(IOException))
    case Some(c) =>
      var (s, first) := ReadLine(Stream(c, false));
      var r2 := r1.(stream := Some(s));
      match first
      case Failure(e) => (r2, Some(e))
      case Success(None) => (r2, Some(NullPointer))
      case Success(Some(h)) =>
        var r3 := r2.(header := Some(headerSplit(h)), lineNumber := r.lineNumber + 1);
        var (r4, row) := ReadRow(r3, rowSplit);
        (r4.(lookahead := row.value), None)
  }

  /**
   * next: count a line, refill the look-ahead, and return the row that was
   * buffered (null if none was). An exception from the refill escapes after
   * the line was counted.
   */
  function Next(r: CsvReader, rowSplit: Splitter): (res: (CsvReader, Result<Option<seq<string>>, Exception>))
    ensures res.0.lineNumber == r.lineNumber + 1
    ensures res.1.Success? ==> res.1.value == r.lookahead
    ensures r.file.Some? && r.stream.Some? ==> res.1.Success?
  {
    var r1 := r.(lineNumber := r.lineNumber + 1);
    var (r2, row) := ReadRow(r1, rowSplit);
    match row
    case Failure(e) => (r2, Failure(e))
    case Success(next) => (r2.(lookahead := next), Success(r.lookahead))
  }

  // ---------------------------------------------------------------- iterating a clean file

  /** The rows of a clean file, each split. */
  function SplitAll(rowSplit: Splitter, texts: seq<string>): (r: seq<seq<string>>)
    ensures |r| == |texts| && forall i :: 0 <= i < |texts| ==> r[i] == rowSplit(texts[i])
  {
    seq(|texts|, i requires 0 <= i < |texts| => rowSplit(texts[i]))
  }

  /**
   * The reader is iterating the data lines `rows` of a clean file and has
   * returned i of them: row i is buffered, the lines after it are unread,
   * and i + 1 lines were counted on top of `base`.
   */
  predicate At(r: CsvReader, rowSplit: Splitter, rows: seq<string>, i: nat, base: int)
  {
    && i <= |rows|
    && r.file.Some?
    && r.header.Some?
    && r.lineNumber == base + 1 + i
    && (i < |rows| ==> r.stream == Some(Stream(Lines(rows[i + 1..]), false)) && r.lookahead == Some(rowSplit(rows[i])))
    && (i == |rows| ==> r.stream == Some(Stream([], false)) && r.lookahead.None?)
  }

  /** Opening a clean file reads its first line as the header, counts it, and buffers the second. */
  lemma OpenClean(r: CsvReader, name: string, head: string, rows: seq<string>, headerSplit: Splitter, rowSplit: Splitter)
    ensures var res := Open(r, name, Some(Lines([head] + rows)), headerSplit, rowSplit);
            && res.1.None?
            && res.0.header == Some(headerSplit(head))
            && At(res.0, rowSplit, rows, 0, r.lineNumber)
  {
    var c := Lines([head] + rows);
    assert c[1..] == Lines(rows);
    if rows != [] {
      assert Lines(rows)[1..] == Lines(rows[1..]);
    }
  }

  /** In a clean file, next returns the buffered row and buffers the following one. */
  lemma NextClean(r: CsvReader, rowSplit: Splitter, rows: seq<string>, i: nat, base: int)
    requires At(r, rowSplit, rows, i, base)
    ensures var res := Next(r, rowSplit);
            && res.1 == Success(if i < |rows| then Some(rowSplit(rows[i])) else None)
            && At(res.0, rowSplit, rows, if i < |rows| then i + 1 else i, base + (if i < |rows| then 0 else 1))
  {
    if i + 1 < |rows| {
      assert Lines(rows[i + 1..])[1..] == Lines(rows[i + 2..]);
    }
  }

  /**
   * The loop `while (hasNext()) next()` on an opened file, collecting the
   * rows. On a clean file whose data lines are `texts` (a ghost description
   * of the input), it returns the rows not yet returned, split, in file order.
   */
  method Drain(r: CsvReader, rowSplit: Splitter, ghost texts: seq<string>, ghost i: nat, ghost base: int)
    returns (last: CsvReader, rows: seq<seq<string>>)
    requires r.file.Some? && r.stream.Some?
    ensures !HasNext(last)
    ensures At(r, rowSplit, texts, i, base) ==>
              && rows == SplitAll(rowSplit, texts[i..])
              && At(last, rowSplit, texts, |texts|, base)
  {
    last := r;
    rows := [];
    ghost var clean := At(r, rowSplit, texts, i, base);
    while HasNext(last)
      invariant last.file.Some? && last.stream.Some?
      invariant clean ==> i + |rows| <= |texts| && At(last, rowSplit, texts, i + |rows|, base)
      invariant clean ==> rows == SplitAll(rowSplit, texts[i..i + |rows|])
      decreases |last.stream.value.pending| + (if last.lookahead.Some? then 1 else 0)
    {
      if clean {
        NextClean(last, rowSplit, texts, i + |rows|, base);
      }
      var (r', row) := Next(last, rowSplit);
      last := r';
      rows := rows + [row.value.value];
    }
    if clean {
      assert texts[i..i + |rows|] == texts[i..];
    }
  }

  /**
   * The main loop over a file: open it, then call next while hasNext. On a
   * clean file the rows come back split, in file order, and the line number
   * ends at the number of lines, header included.
   */
  method ReadAll(name: string, content: seq<ReadOutcome>, headerSplit: Splitter, rowSplit: Splitter,
                 ghost head: string, ghost texts: seq<string>)
    returns (rows: seq<seq<string>>, lineNumber: int, error: Option<Exception>)
    ensures content == [] ==> error == Some(NullPointer) && rows == []
    ensures content == Lines([head] + texts) ==>
              error.None? && rows == SplitAll(rowSplit, texts) && lineNumber == |texts| + 1
  {
    var (r, openError) := Open(Fresh, name, Some(content), headerSplit, rowSplit);
    rows := [];
    lineNumber := r.lineNumber;
    error := openError;
    if openError.None? {
      if content == Lines([head] + texts) {
        OpenClean(Fresh, name, head, texts, headerSplit, rowSplit);
      }
      var last;
      last, rows := Drain(r, rowSplit, texts, 0, 0);
      lineNumber := last.lineNumber;
      assert texts[0..] == texts;
    }
  }

  // ---------------------------------------------------------------- edge cases

  /** An IOException while refilling is taken for the end of input: hasNext turns false, nothing escapes. */
  lemma ReadErrorEndsInput(r: CsvReader, rowSplit: Splitter, rest: seq<ReadOutcome>)
    requires r.file.Some? && r.stream == Some(Stream([ReadFails] + rest, false))
    ensures var res := Next(r, rowSplit);
            res.1 == Success(r.lookahead) && !HasNext(res.0)
  {
  }

  /** A fresh reader opened on a blob has nothing buffered and no header; its first next returns null. */
  lemma OpenTextFresh(blob: seq<ReadOutcome>, rowSplit: Splitter)
    ensures var r := OpenText(Fresh, blob);
            && !HasNext(r) && r.header.None?
            && (blob != [] && blob[0].Line? ==>
                  Next(r, rowSplit).1 == Success(None) && Next(r, rowSplit).0.lookahead == Some(rowSplit(blob[0].text)))
  {
  }

  /** On a blob, a read error cannot be logged (there is no file name) and escapes as NullPointerException. */
  lemma OpenTextReadError(blob: seq<ReadOutcome>, rowSplit: Splitter)
    requires blob != [] && blob[0] == ReadFails
    ensures Next(OpenText(Fresh, blob), rowSplit).1 == Failure(NullPointer)
  {
  }

  /** Closing a reader that was never opened changes nothing; next on it throws. */
  lemma NeverOpened(rowSplit: Splitter)
    ensures CloseReader(Fresh) == Fresh
    ensures Next(Fresh, rowSplit).1 == Failure(NullPointer)
  {
  }
}
