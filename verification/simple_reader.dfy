/**
 * SimpleReader: the look-ahead line iterator of SimpleCsvReader, but each
 * data row is returned as a map from header name to the token in that
 * column. Unlike SimpleCSVReader, a failed refill leaves the look-ahead in
 * place, and exceptions other than IOException escape.
 */
module SimpleReader {
  import opened Wrappers
  import opened JavaLang
  import opened LineSources
  import opened RecordIterator

  /** A row is a map from header name to the token in that column. */
  type Row = map<string, string>

  type MapReader = Reader<Row>

  /** A freshly constructed reader: every field null, line number 0. */
  const Fresh: MapReader := Reader(None, None, None, None, 0)

  // ---------------------------------------------------------------- a row as a map

  /** retMap.put(header[c], token) for the tokens from column c on; a column beyond the header throws. */
  function Puts(m: Row, header: seq<string>, tokens: seq<string>, c: nat): (r: Result<Row, Exception>)
    requires c <= |tokens|
    ensures r.Failure? <==> |tokens| > |header| && c < |tokens|
    ensures r.Failure? ==> r.error == IndexOutOfBounds(if c > |header| then c else |header|)
    decreases |tokens| - c
  {
    if c == |tokens| then Success(m)
    else if c >= |header| then Failure(IndexOutOfBounds(c))
    else Puts(m[header[c] := tokens[c]], header, tokens, c + 1)
  }

  /** nextMap's loop from an empty map; with a null header any token dereferences it. */
  function RowMap(header: Option<seq<string>>, tokens: seq<string>): (r: Result<Row, Exception>)
    ensures header.None? ==> (r.Failure? <==> tokens != [])
    ensures header.Some? ==> (r.Failure? <==> |tokens| > |header.value|)
    ensures header.Some? && r.Failure? ==> r.error == IndexOutOfBounds(|header.value|)
  {
    match header
    case None => if tokens == [] then Success(map[]) else Failure(NullPointer)
    case Some(h) => Puts(map[], h, tokens, 0)
  }

  /** No column in [c, n) carries the name k. */
  predicate Unnamed(header: seq<string>, c: nat, n: nat, k: string)
    requires c <= n <= |header|
  {
    forall c' :: c <= c' < n ==> header[c'] != k
  }

  /** No column after c carries the name of column c. */
  predicate LastOfName(header: seq<string>, c: nat, n: nat)
    requires c < n <= |header|
  {
    Unnamed(header, c + 1, n, header[c])
  }

  /**
   * What the puts from column c on leave behind: the keys are the earlier
   * keys plus the names of the columns read; a column whose name does not
   * occur again to its right wins; a key no column names keeps its value.
   */
  lemma PutsContents(m: Row, header: seq<string>, tokens: seq<string>, c: nat)
    requires c <= |tokens| <= |header|
    ensures Puts(m, header, tokens, c).Success?
    ensures var r := Puts(m, header, tokens, c).value;
            && r.Keys == m.Keys + (set c' | c <= c' < |tokens| :: header[c'])
            && (forall c' :: c <= c' < |tokens| && LastOfName(header, c', |tokens|) ==> r[header[c']] == tokens[c'])
            && (forall k :: k in m && Unnamed(header, c, |tokens|, k) ==> r[k] == m[k])
  {
    PutsKeys(m, header, tokens, c);
    PutsLastWins(m, header, tokens, c);
    PutsUntouched(m, header, tokens, c);
  }

  /** The keys the puts from column c on leave: the earlier ones and the names of the columns read. */
  lemma {:induction false} PutsKeys(m: Row, header: seq<string>, tokens: seq<string>, c: nat)
    requires c <= |tokens| <= |header|
    ensures Puts(m, header, tokens, c).Success?
    ensures Puts(m, header, tokens, c).value.Keys == m.Keys + (set c' | c <= c' < |tokens| :: header[c'])
    decreases |tokens| - c
  {
    if c < |tokens| {
      var m1 := m[header[c] := tokens[c]];
      PutsKeys(m1, header, tokens, c + 1);
      assert Puts(m, header, tokens, c) == Puts(m1, header, tokens, c + 1);
      assert (set c' | c <= c' < |tokens| :: header[c'])
             == {header[c]} + (set c' | c + 1 <= c' < |tokens| :: header[c']);
    }
  }

  /** After the puts from column c on, the last column of each name holds its token. */
  lemma {:induction false} PutsLastWins(m: Row, header: seq<string>, tokens: seq<string>, c: nat)
    requires c <= |tokens| <= |header|
    ensures Puts(m, header, tokens, c).Success?
    ensures var r := Puts(m, header, tokens, c).value;
            forall c' :: c <= c' < |tokens| && LastOfName(header, c', |tokens|) ==> header[c'] in r && r[header[c']] == tokens[c']
    decreases |tokens| - c
  {
    if c < |tokens| {
      var m1 := m[header[c] := tokens[c]];
      PutsLastWins(m1, header, tokens, c + 1);
      PutsUntouched(m1, header, tokens, c + 1);
      var r := Puts(m, header, tokens, c).value;
      assert r == Puts(m1, header, tokens, c + 1).value;
      assert header[c] in m1 && m1[header[c]] == tokens[c];
    }
  }

  /** The puts from column c on leave a key that no column from c on names as it was. */
  lemma {:induction false} PutsUntouched(m: Row, header: seq<string>, tokens: seq<string>, c: nat)
    requires c <= |tokens| <= |header|
    ensures Puts(m, header, tokens, c).Success?
    ensures var r := Puts(m, header, tokens, c).value;
            forall k :: k in m && Unnamed(header, c, |tokens|, k) ==> k in r && r[k] == m[k]
    decreases |tokens| - c
  {
    if c < |tokens| {
      var m1 := m[header[c] := tokens[c]];
      PutsUntouched(m1, header, tokens, c + 1);
      assert Puts(m, header, tokens, c) == Puts(m1, header, tokens, c + 1);
      forall k | k in m && Unnamed(header, c, |tokens|, k) ensures k in m1 && m1[k] == m[k] && Unnamed(header, c + 1, |tokens|, k) {
        assert header[c] != k;
      }
    }
  }

  /**
   * A row with no more tokens than header names maps exactly the names of
   * the columns present, each to the token of its rightmost column: a
   * repeated header name keeps the later column's value, and the header
   * names past the last token are absent.
   */
  lemma RowMapContents(header: seq<string>, tokens: seq<string>)
    requires |tokens| <= |header|
    ensures RowMap(Some(header), tokens).Success?
    ensures var r := RowMap(Some(header), tokens).value;
            && r.Keys == (set c | 0 <= c < |tokens| :: header[c])
            && (forall c :: 0 <= c < |tokens| && LastOfName(header, c, |tokens|) ==> r[header[c]] == tokens[c])
  {
    PutsContents(map[], header, tokens, 0);
  }

  // ---------------------------------------------------------------- the reader

  /** nextMap: read a line (an IOException escapes), null at the end, else the row's map. */
  function NextMap(r: MapReader, rowSplit: Splitter): (res: (MapReader, Result<Option<Row>, Exception>))
    ensures res.0 == r.(stream := res.0.stream)
    ensures r.stream.None? ==> res == (r, Failure(NullPointer))
  {
    match r.stream
    case None => (r, Failure(NullPointer))
    case Some(s) =>
      var (s', line) := ReadLine(s);
      var r' := r.(stream := Some(s'));
      match line
      case Failure(e) => (r', Failure(e))
      case Success(None) => (r', Success(None))
      case Success(Some(t)) =>
        match RowMap(r.header, rowSplit(t))
        case Failure(e) => (r', Failure(e))
        case Success(row) => (r', Success(Some(row)))
  }

  /**
   * open(File): as for SimpleCSVReader, but the first row is buffered by
   * nextMap, whose exceptions escape from open.
   */
  function Open(r: MapReader, name: string, content: Option<seq<ReadOutcome>>,
                headerSplit: Splitter, rowSplit: Splitter): (res: (MapReader, Option<Exception>))
    ensures res.0.file == Some(name)
    ensures content.None? ==> res == (r.(file := Some(name)), Some(IOException))
    ensures res.1.None? ==> res.0.lineNumber == r.lineNumber + 1 && res.0.header.Some?
    ensures content.Some? && content.value == [] ==> res.1 == Some(NullPointer)
  {
    var r1 := r.(file := Some(name));
    match content
    case None => (r1, Some(IOException))
    case Some(c) =>
      var (s, first) := ReadLine(Stream(c, false));
      var r2 := r1.(stream := Some(s));
      match first
      case Failure(e) => (r2, Some(e))
      case Success(None) => (r2, Some(NullPointer))
      case Success(Some(h)) =>
        var r3 := r2.(header := Some(headerSplit(h)), lineNumber := r.lineNumber + 1);
        var (r4, row) := NextMap(r3, rowSplit);
        match row
        case Failure(e) => (r4, Some(e))
        case Success(next) => (r4.(lookahead := next), None)
  }

  /**
   * next: count a line and refill the look-ahead, then return the row that
   * was buffered. An IOException from the refill is logged (which needs the
   * file name) and the look-ahead is left as it was; any other exception
   * escapes, after the line was counted.
   */
  function Next(r: MapReader, rowSplit: Splitter): (res: (MapReader, Result<Option<Row>, Exception>))
    ensures res.0.lineNumber == r.lineNumber + 1
    ensures res.1.Success? ==> res.1.value == r.lookahead
    ensures res.0.lookahead != r.lookahead ==> res.1.Success?
  {
    var r1 := r.(lineNumber := r.lineNumber + 1);
    var (r2, row) := NextMap(r1, rowSplit);
    match row
    case Failure(e) =>
      if e == IOException then
        if r.file.None? then (r2, Failure(NullPointer)) else (r2, Success(r.lookahead))
      else (r2, Failure(e))
    case Success(next) => (r2.(lookahead := next), Success(r.lookahead))
  }

  // ---------------------------------------------------------------- properties

  /**
   * A failed refill leaves the buffered row in place: next returns it, and
   * the following next returns it once more if that refill succeeds.
   */
  lemma IoRefillRepeatsRow(r: MapReader, rowSplit: Splitter, rest: seq<ReadOutcome>)
    requires r.file.Some? && r.stream == Some(Stream([ReadFails] + rest, false))
    ensures var res := Next(r, rowSplit);
            && res.1 == Success(r.lookahead)
            && res.0.lookahead == r.lookahead
            && (Next(res.0, rowSplit).1.Success? ==> Next(res.0, rowSplit).1 == Success(r.lookahead))
  {
  }

  /** A row with more tokens than header names makes next throw, and the row stays buffered. */
  lemma LongRowThrows(r: MapReader, rowSplit: Splitter, t: string, rest: seq<ReadOutcome>)
    requires r.header.Some? && r.stream == Some(Stream([Line(t)] + rest, false))
    requires |rowSplit(t)| > |r.header.value|
    ensures Next(r, rowSplit).1 == Failure(IndexOutOfBounds(|r.header.value|))
    ensures Next(r, rowSplit).0.lookahead == r.lookahead
  {
  }

  /** The rows of a clean file all fit the header. */
  predicate Fits(header: seq<string>, rowSplit: Splitter, rows: seq<string>)
  {
    forall i :: 0 <= i < |rows| ==> |rowSplit(rows[i])| <= |header|
  }

  /** The map nextMap builds for a data line that fits the header. */
  function MapOf(header: seq<string>, rowSplit: Splitter, text: string): Row
    requires |rowSplit(text)| <= |header|
  {
    RowMap(Some(header), rowSplit(text)).value
  }

  /** Iterating a clean file: i rows returned, row i buffered as a map, i + 1 lines counted on top of `base`. */
  predicate At(r: MapReader, header: seq<string>, rowSplit: Splitter, rows: seq<string>, i: nat, base: int)
  {
    && i <= |rows|
    && Fits(header, rowSplit, rows)
    && r.file.Some?
    && r.header == Some(header)
    && r.lineNumber == base + 1 + i
    && (i < |rows| ==> r.stream == Some(Stream(Lines(rows[i + 1..]), false))
                       && r.lookahead == Some(MapOf(header, rowSplit, rows[i])))
    && (i == |rows| ==> r.stream == Some(Stream([], false)) && r.lookahead.None?)
  }

  /** Opening a clean file reads the header from line 1, counts it, and buffers the first row's map. */
  lemma OpenClean(r: MapReader, name: string, head: string, rows: seq<string>, headerSplit: Splitter, rowSplit: Splitter)
    requires Fits(headerSplit(head), rowSplit, rows)
    ensures var res := Open(r, name, Some(Lines([head] + rows)), headerSplit, rowSplit);
            res.1.None? && At(res.0, headerSplit(head), rowSplit, rows, 0, r.lineNumber)
  {
    var c := Lines([head] + rows);
    assert c[1..] == Lines(rows);
    if rows != [] {
      assert Lines(rows)[1..] == Lines(rows[1..]);
    }
  }

  lemma NextClean(r: MapReader, header: seq<string>, rowSplit: Splitter, rows: seq<string>, i: nat, base: int)
    requires At(r, header, rowSplit, rows, i, base) && i < |rows|
    ensures var res := Next(r, rowSplit);
            res.1 == Success(Some(MapOf(header, rowSplit, rows[i]))) && At(res.0, header, rowSplit, rows, i + 1, base)
  {
    if i + 1 < |rows| {
      assert Lines(rows[i + 1..])[1..] == Lines(rows[i + 2..]);
    }
  }

  /** k successive calls of next, stopping at the first exception. */
  function Iterate(r: MapReader, rowSplit: Splitter, k: nat): (res: (MapReader, seq<Option<Row>>, Option<Exception>))
    ensures |res.1| <= k
    ensures res.2.None? ==> |res.1| == k && res.0.lineNumber == r.lineNumber + k
    decreases k
  {
    if k == 0 then (r, [], None)
    else
      var (r1, x) := Next(r, rowSplit);
      match x
      case Failure(e) => (r1, [], Some(e))
      case Success(v) =>
        var (r2, xs, e) := Iterate(r1, rowSplit, k - 1);
        (r2, [v] + xs, e)
  }

  /**
   * After opening a clean file whose rows fit the header, k calls of next
   * (k at most the number of rows) return the first k rows' maps in file
   * order, and the line number is k + 1 past what it was before open.
   */
  lemma {:induction false} IterateClean(r: MapReader, header: seq<string>, rowSplit: Splitter,
                                        rows: seq<string>, i: nat, base: int, k: nat)
    requires At(r, header, rowSplit, rows, i, base) && i + k <= |rows|
    ensures var res := Iterate(r, rowSplit, k);
            && res.2.None?
            && (forall j :: 0 <= j < k ==> res.1[j] == Some(MapOf(header, rowSplit, rows[i + j])))
            && At(res.0, header, rowSplit, rows, i + k, base)
    decreases k
  {
    if k > 0 {
      NextClean(r, header, rowSplit, rows, i, base);
      var r1 := Next(r, rowSplit).0;
      IterateClean(r1, header, rowSplit, rows, i + 1, base, k - 1);
      var rest := Iterate(r1, rowSplit, k - 1);
      var res := Iterate(r, rowSplit, k);
      IterateStep(r, rowSplit, k);
      var v := Some(MapOf(header, rowSplit, rows[i]));
      assert res.1 == [v] + rest.1 && |rest.1| == k - 1;
      ShiftedRows(res.1, rest.1, v, header, rowSplit, rows, i);
      assert res.0 == rest.0 && (i + 1) + (k - 1) == i + k;
    }
  }

  /** A call of next that returns a value is followed by the remaining calls. */
  lemma IterateStep(r: MapReader, rowSplit: Splitter, k: nat)
    requires k > 0 && Next(r, rowSplit).1.Success?
    ensures var rest := Iterate(Next(r, rowSplit).0, rowSplit, k - 1);
            Iterate(r, rowSplit, k) == (rest.0, [Next(r, rowSplit).1.value] + rest.1, rest.2)
  {
  }

  /** The maps of rows i, i + 1, ...: the map of row i, then those of rows i + 1, ... */
  lemma ShiftedRows(xs: seq<Option<Row>>, rest: seq<Option<Row>>, v: Option<Row>, header: seq<string>,
                    rowSplit: Splitter, rows: seq<string>, i: nat)
    requires Fits(header, rowSplit, rows) && i + |xs| <= |rows|
    requires xs == [v] + rest && v == Some(MapOf(header, rowSplit, rows[i]))
    requires forall j :: 0 <= j < |rest| ==> rest[j] == Some(MapOf(header, rowSplit, rows[i + 1 + j]))
    ensures forall j :: 0 <= j < |xs| ==> xs[j] == Some(MapOf(header, rowSplit, rows[i + j]))
  {
    forall j | 0 <= j < |xs| ensures xs[j] == Some(MapOf(header, rowSplit, rows[i + j])) {
      if j > 0 {
        assert xs[j] == rest[j - 1];
      }
    }
  }

  /** A reader never opened has nothing buffered, closes as a no-op, and its next throws NullPointerException. */
  lemma NeverOpened(rowSplit: Splitter)
    ensures !HasNext(Fresh)
    ensures CloseReader(Fresh) == Fresh
    ensures Next(Fresh, rowSplit).1 == Failure(NullPointer)
  {
  }

  /**
   * open(String) reads no header, so on a blob whose first line has a
   * token the first next throws NullPointerException from header[0].
   */
  lemma OpenTextNoHeader(blob: seq<ReadOutcome>, rowSplit: Splitter)
    requires blob != [] && blob[0].Line? && rowSplit(blob[0].text) != []
    ensures var r := OpenText(Fresh, blob);
            && r.header.None? && !HasNext(r)
            && Next(r, rowSplit).1 == Failure(NullPointer)
  {
  }
}
