/**
 * RecordConsumer: builds the Lucene document of one CSV record (header,
 * values and metadata) and adds it to the shared writer.  The worker's
 * ThreadLocal document is an explicit buffer, passed in and handed back:
 * None before the worker's first record.
 */
module RecordConsumer {
  import opened Wrappers
  import opened JavaLang
  import opened Documents
  import opened IndexWriterModel

  /** The writer's analyzer: the tokens one value yields for the catch-all field. */
  type Analyzer = string -> seq<string>

  /** createTokenizedAllField: one unstored catch-all TextField per token. */
  function CatchAllFields(tokens: seq<string>): (r: Document)
    ensures |r| == |tokens|
    ensures AllCatchAll(r)
    ensures forall i :: 0 <= i < |r| ==> r[i].value == tokens[i]
  {
    seq(|tokens|, i requires 0 <= i < |tokens| => Field(CatchAll, tokens[i], Text, false))
  }

  /** The tokens of `values`, value after value. */
  function Tokens(analyzer: Analyzer, values: seq<string>): seq<string>
  {
    if values == [] then []
    else Tokens(analyzer, values[..|values| - 1]) + analyzer(values[|values| - 1])
  }

  /** The stored header fields, one per header position, in header order. */
  function HeaderFields(header: seq<string>, record: seq<string>): (r: Document)
    requires |header| <= |record|
  {
    seq(|header|, i requires 0 <= i < |header| => Field(header[i], record[i], Text, true))
  }

  /** The stored metadata fields, key and value verbatim, in map order. */
  function MetadataFields(metadata: Entries): Document
  {
    seq(|metadata|, i requires 0 <= i < |metadata| => Field(metadata[i].0, metadata[i].1, Str, true))
  }

  /** First use, header positions [0, i): each stored TextField, then the catch-all fields of its value. */
  function FreshHeader(header: seq<string>, record: seq<string>, analyzer: Analyzer, i: nat): Document
    requires i <= |header| <= |record|
  {
    if i == 0 then []
    else FreshHeader(header, record, analyzer, i - 1)
         + [Field(header[i - 1], record[i - 1], Text, true)]
         + CatchAllFields(analyzer(record[i - 1]))
  }

  /**
   * Reuse, header position i up to the tokenization: getField(header[i])
   * cast to TextField, record[i] read and the value set in place.
   */
  function SetHeaderValue(doc: Document, header: seq<string>, record: seq<string>, i: nat): (r: Result<Document, Exception>)
    requires i < |header|
    ensures r.Success? <==> Lookup(doc, header[i], Text).Success? && i < |record| && FindField(doc, header[i]).Some?
    ensures r.Success? ==> r.value == SetValue(doc, FindField(doc, header[i]).value, record[i])
    ensures r.Failure? && i >= |record| && Lookup(doc, header[i], Text).Success? ==> r.error == IndexOutOfBounds(i)
  {
    match Lookup(doc, header[i], Text)
    case Failure(e) => Failure(e)
    case Success(found) =>
      if i >= |record| then Failure(IndexOutOfBounds(i))
      else if found.None? then Failure(NullPointer)
      else Success(SetValue(doc, found.value, record[i]))
  }

  /**
   * Reuse, header positions [i, |header|): each value set in place, then
   * the catch-all fields of the value appended.
   */
  function ReuseHeader(doc: Document, header: seq<string>, record: seq<string>, analyzer: Analyzer, i: nat): (p: Progress)
    requires i <= |header|
    ensures p.error.None? && i < |header| ==> |header| <= |record|
    decreases |header| - i
  {
    if i == |header| then Progress(doc, None)
    else match SetHeaderValue(doc, header, record, i)
      case Failure(e) => Progress(doc, Some(e))
      case Success(d) => ReuseHeader(d + CatchAllFields(analyzer(record[i])), header, record, analyzer, i + 1)
  }

  /** Reuse, metadata entries [j, |metadata|): getField(key) cast to StringField and its value set. */
  function ReuseMetadata(doc: Document, metadata: Entries, j: nat): (p: Progress)
    requires j <= |metadata|
    ensures |p.doc| == |doc|
    decreases |metadata| - j
  {
    if j == |metadata| then Progress(doc, None)
    else match Lookup(doc, metadata[j].0, Str)
      case Failure(e) => Progress(doc, Some(e))
      case Success(found) =>
        if found.None? then Progress(doc, Some(NullPointer))
        else ReuseMetadata(SetValue(doc, found.value, metadata[j].1), metadata, j + 1)
  }

  /** The worker's buffer after the call, and the built document or the exception thrown. */
  datatype Build = Build(buffer: Option<Document>, result: Result<Document, Exception>)

  /**
   * buildLuceneDocument.  On first use a failure leaves the worker without
   * a buffer; on reuse the buffer keeps whatever was changed before the
   * exception, as the Java object does.  The catch-all fields are made with
   * writer.getAnalyzer(), which throws AlreadyClosed once the shared writer
   * is closed: the first header value is then read, and on reuse set in
   * place, before the build stops.
   */
  function BuildLuceneDocument(buffer: Option<Document>, header: seq<string>, record: seq<string>,
                               metadata: Entries, analyzer: Analyzer, writerOpen: bool): (b: Build)
    ensures b.result.Success? ==> b.buffer == Some(b.result.value)
    ensures buffer.Some? ==> b.buffer.Some?
    ensures |record| < |header| ==> b.result.Failure?
    ensures !writerOpen && header != [] ==> b.result.Failure?
    ensures buffer.None? && |record| < |header| && (writerOpen || |record| == 0)
            ==> b == Build(None, Failure(IndexOutOfBounds(|record|)))
    ensures buffer.None? && !writerOpen && 0 < |record| && header != [] ==> b == Build(None, Failure(AlreadyClosed))
    ensures buffer.None? && |record| >= |header| && (writerOpen || header == []) ==> b.result.Success?
  {
    match buffer
    case None =>
      if |record| < |header| && (writerOpen || |record| == 0) then Build(None, Failure(IndexOutOfBounds(|record|)))
      else if !writerOpen && header != [] then Build(None, Failure(AlreadyClosed))
      else
        var d := FreshHeader(header, record, analyzer, |header|) + MetadataFields(metadata);
        Build(Some(d), Success(d))
    case Some(prev) =>
      var doc0 := RemoveFields(prev, CatchAll);
      if !writerOpen && header != [] then
        match SetHeaderValue(doc0, header, record, 0)
        case Failure(e) => Build(Some(doc0), Failure(e))
        case Success(d) => Build(Some(d), Failure(AlreadyClosed))
      else
        var p := ReuseHeader(doc0, header, record, analyzer, 0);
        if p.error.Some? then Build(Some(p.doc), Failure(p.error.value))
        else
          var q := ReuseMetadata(p.doc, metadata, 0);
          if q.error.Some? then Build(Some(q.doc), Failure(q.error.value))
          else Build(Some(q.doc), Success(q.doc))
  }

  // ---------------------------------------------------------------- addToIndex / run

  /**
   * addToIndex: an I/O failure drops the document and leaves the writer
   * open; an OutOfMemoryError closes the writer shared by all workers.
   * The exception of a writer that is already closed escapes, and so does
   * an unchecked refusal of the document, which neither catch clause names.
   */
  function AddToIndex(w: Writer, doc: Document, outcome: AddOutcome): (r: Result<Writer, Exception>)
    ensures r.Failure? <==> !w.open || outcome == AddRejected
    ensures w.open && outcome == AddRejected ==> r == Failure(IllegalArgument)
    ensures w.open && outcome == Added ==> r == Success(Writer(true, w.documents + [doc]))
    ensures w.open && outcome == AddFailsIo ==> r == Success(w)
    ensures w.open && outcome == AddOutOfMemory ==> r == Success(Writer(false, w.documents))
  {
    match AddDocument(w, doc, outcome)
    case Success(w') => Success(w')
    case Failure(e) =>
      if e == IOException then Success(w)
      else if e == OutOfMemory then Success(w.(open := false))
      else Failure(e)
  }

  /** run: build the document, then add it; a build failure escapes before anything is added. */
  function Run(buffer: Option<Document>, w: Writer, header: seq<string>, record: seq<string>,
               metadata: Entries, analyzer: Analyzer, outcome: AddOutcome): (r: RunResult)
    ensures r.buffer == BuildLuceneDocument(buffer, header, record, metadata, analyzer, w.open).buffer
    ensures r.writer.open ==> w.open
    ensures r.writer.documents == w.documents
            || (r.buffer.Some? && r.writer.documents == w.documents + [r.buffer.value]
                && BuildLuceneDocument(buffer, header, record, metadata, analyzer, w.open).result == Success(r.buffer.value))
    ensures !w.open ==> r.writer == w && r.error.Some?
    ensures BuildLuceneDocument(buffer, header, record, metadata, analyzer, w.open).result.Failure? ==> r.writer == w
  {
    var b := BuildLuceneDocument(buffer, header, record, metadata, analyzer, w.open);
    match b.result
    case Failure(e) => RunResult(b.buffer, w, Some(e))
    case Success(doc) =>
      match AddToIndex(w, doc, outcome)
      case Success(w') => RunResult(b.buffer, w', None)
      case Failure(e) => RunResult(b.buffer, w, Some(e))
  }

  // ---------------------------------------------------------------- first use

  lemma CatchAllFieldsAppend(a: seq<string>, b: seq<string>)
    ensures CatchAllFields(a + b) == CatchAllFields(a) + CatchAllFields(b)
  {
  }

  lemma ValuesNamedCatchAll(tokens: seq<string>)
    ensures ValuesNamed(CatchAllFields(tokens), CatchAll) == tokens
    decreases |tokens|
  {
    if tokens != [] {
      ValuesNamedCatchAll(tokens[1..]);
      assert CatchAllFields(tokens)[1..] == CatchAllFields(tokens[1..]);
    }
  }

  /** Store.NO exactly on the catch-all fields. */
  predicate OnlyCatchAllUnstored(doc: Document)
  {
    forall k :: 0 <= k < |doc| ==> (doc[k].stored <==> doc[k].name != CatchAll)
  }

  lemma HeaderFieldsPrefix(header: seq<string>, record: seq<string>, i: nat)
    requires 0 < i <= |header| <= |record|
    ensures HeaderFields(header, record)[..i]
            == HeaderFields(header, record)[..i - 1] + [Field(header[i - 1], record[i - 1], Text, true)]
  {
  }

  /** Projecting away the catch-all fields of one header step keeps its stored field only. */
  lemma RemoveStep(prev: Document, f: Field, tail: Document)
    requires f.name != CatchAll && AllCatchAll(tail)
    ensures RemoveFields(prev + [f] + tail, CatchAll) == RemoveFields(prev, CatchAll) + [f]
  {
    RemoveFieldsAppend(prev + [f], tail, CatchAll);
    RemoveFieldsAppend(prev, [f], CatchAll);
    RemoveFieldsEvery(tail, CatchAll);
    RemoveFieldsAbsent([f], CatchAll);
  }

  lemma {:induction false} FreshHeaderRemove(header: seq<string>, record: seq<string>, analyzer: Analyzer, i: nat)
    requires i <= |header| <= |record|
    requires forall m :: 0 <= m < |header| ==> header[m] != CatchAll
    ensures RemoveFields(FreshHeader(header, record, analyzer, i), CatchAll) == HeaderFields(header, record)[..i]
    decreases i
  {
    if i == 0 {
      assert HeaderFields(header, record)[..0] == [];
    } else {
      FreshHeaderRemove(header, record, analyzer, i - 1);
      var prev := FreshHeader(header, record, analyzer, i - 1);
      var f := Field(header[i - 1], record[i - 1], Text, true);
      var tail := CatchAllFields(analyzer(record[i - 1]));
      assert f.name != CatchAll;
      RemoveStep(prev, f, tail);
      HeaderFieldsPrefix(header, record, i);
      calc {
        RemoveFields(FreshHeader(header, record, analyzer, i), CatchAll);
        RemoveFields(prev + [f] + tail, CatchAll);
        RemoveFields(prev, CatchAll) + [f];
        HeaderFields(header, record)[..i - 1] + [f];
        HeaderFields(header, record)[..i];
      }
    }
  }

  lemma {:induction false} FreshHeaderTokens(header: seq<string>, record: seq<string>, analyzer: Analyzer, i: nat)
    requires i <= |header| <= |record|
    requires forall m :: 0 <= m < |header| ==> header[m] != CatchAll
    ensures ValuesNamed(FreshHeader(header, record, analyzer, i), CatchAll) == Tokens(analyzer, record[..i])
    decreases i
  {
    if i > 0 {
      FreshHeaderTokens(header, record, analyzer, i - 1);
      var prev := FreshHeader(header, record, analyzer, i - 1);
      var f := [Field(header[i - 1], record[i - 1], Text, true)];
      var tail := CatchAllFields(analyzer(record[i - 1]));
      ValuesNamedAppend(prev + f, tail, CatchAll);
      ValuesNamedAppend(prev, f, CatchAll);
      assert ValuesNamed(f, CatchAll) == [];
      ValuesNamedCatchAll(analyzer(record[i - 1]));
      assert record[..i][..i - 1] == record[..i - 1];
    }
  }

  lemma {:induction false} FreshHeaderStored(header: seq<string>, record: seq<string>, analyzer: Analyzer, i: nat)
    requires i <= |header| <= |record|
    requires forall m :: 0 <= m < |header| ==> header[m] != CatchAll
    ensures OnlyCatchAllUnstored(FreshHeader(header, record, analyzer, i))
    decreases i
  {
    if i > 0 {
      FreshHeaderStored(header, record, analyzer, i - 1);
      var prev := FreshHeader(header, record, analyzer, i - 1);
      var f := [Field(header[i - 1], record[i - 1], Text, true)];
      var tail := CatchAllFields(analyzer(record[i - 1]));
      var d := FreshHeader(header, record, analyzer, i);
      assert d == prev + f + tail;
      forall k | 0 <= k < |d| ensures d[k].stored <==> d[k].name != CatchAll {
        if k < |prev| {
          assert d[k] == prev[k];
          assert prev[k].stored <==> prev[k].name != CatchAll;
        } else if k == |prev| {
          assert d[k] == f[0];
          assert header[i - 1] != CatchAll;
        } else {
          assert d[k] == tail[k - |prev| - 1];
          assert AllCatchAll(tail);
          assert tail[k - |prev| - 1].name == CatchAll && !tail[k - |prev| - 1].stored;
        }
      }
    }
  }

  /**
   * First use: without the catch-all fields the document is exactly the
   * stored header fields followed by the stored metadata fields; the
   * catch-all values are the tokens of the header values in header order;
   * exactly the catch-all fields are unstored.
   */
  lemma FirstUseLayout(header: seq<string>, record: seq<string>, metadata: Entries, analyzer: Analyzer)
    requires |header| <= |record|
    requires forall m :: 0 <= m < |header| ==> header[m] != CatchAll
    requires forall m :: 0 <= m < |metadata| ==> metadata[m].0 != CatchAll
    ensures var b := BuildLuceneDocument(None, header, record, metadata, analyzer, true);
            && b.result.Success?
            && RemoveFields(b.result.value, CatchAll) == HeaderFields(header, record) + MetadataFields(metadata)
            && ValuesNamed(b.result.value, CatchAll) == Tokens(analyzer, record[..|header|])
            && OnlyCatchAllUnstored(b.result.value)
  {
    var built := FreshHeader(header, record, analyzer, |header|);
    var meta := MetadataFields(metadata);
    FreshHeaderRemove(header, record, analyzer, |header|);
    FreshHeaderTokens(header, record, analyzer, |header|);
    FreshHeaderStored(header, record, analyzer, |header|);
    RemoveFieldsAppend(built, meta, CatchAll);
    RemoveFieldsAbsent(meta, CatchAll);
    ValuesNamedAppend(built, meta, CatchAll);
    ValuesNamedAbsent(meta, CatchAll);
    assert HeaderFields(header, record)[..|header|] == HeaderFields(header, record);
  }

  // ---------------------------------------------------------------- reuse

  /** Keys of the metadata entries from position j on. */
  function KeysFrom(metadata: Entries, j: nat): set<string>
  {
    set m | j <= m < |metadata| :: metadata[m].0
  }

  lemma ValueOfAppend(a: Document, b: Document, name: string)
    requires forall k :: 0 <= k < |b| ==> b[k].name != name
    ensures ValueOf(a + b, name) == ValueOf(a, name)
    ensures FindField(a + b, name) == FindField(a, name)
  {
    FindFieldAppend(a, b, name);
  }

  /** The loop invariant of the reuse of the header: a catch-all-free prefix of n fields, then catch-all fields only. */
  predicate HeaderLoopInv(doc: Document, header: seq<string>, record: seq<string>, analyzer: Analyzer, i: nat, n: nat)
  {
    && i <= |header| && i <= |record| && n <= |doc|
    && NoCatchAll(doc[..n]) && doc[n..] == CatchAllFields(Tokens(analyzer, record[..i]))
    && (forall m :: 0 <= m < |header| ==> header[m] != CatchAll)
  }

  /** The document after one step of the reuse loop over the header. */
  function HeaderStep(doc: Document, k: nat, v: string, analyzer: Analyzer): Document
    requires k < |doc|
  {
    SetValue(doc, k, v) + CatchAllFields(analyzer(v))
  }

  /** The field the header loop writes lies inside the catch-all-free prefix. */
  lemma HeaderStepIndex(doc: Document, header: seq<string>, record: seq<string>, analyzer: Analyzer, i: nat, n: nat)
    requires HeaderLoopInv(doc, header, record, analyzer, i, n)
    requires i < |header| && FindField(doc, header[i]).Some?
    ensures FindField(doc, header[i]).value < n
    ensures FindField(doc[..n], header[i]) == FindField(doc, header[i])
  {
    var k := FindField(doc, header[i]).value;
    assert header[i] != CatchAll;
    assert AllCatchAll(doc[n..]);
    assert doc == doc[..n] + doc[n..];
    FindFieldAppend(doc[..n], doc[n..], header[i]);
  }

  /** One step of the header loop keeps the invariant. */
  lemma HeaderStepInv(doc: Document, header: seq<string>, record: seq<string>, analyzer: Analyzer, i: nat, n: nat, k: nat)
    requires HeaderLoopInv(doc, header, record, analyzer, i, n)
    requires i < |header| && i < |record| && k < n
    ensures HeaderStep(doc, k, record[i], analyzer)[..n] == SetValue(doc[..n], k, record[i])
    ensures HeaderLoopInv(HeaderStep(doc, k, record[i], analyzer), header, record, analyzer, i + 1, n)
  {
    var v := record[i];
    var d1 := HeaderStep(doc, k, v, analyzer);
    assert d1[..n] == SetValue(doc[..n], k, v);
    assert d1[n..] == doc[n..] + CatchAllFields(analyzer(v));
    assert record[..i + 1][..i] == record[..i];
    CatchAllFieldsAppend(Tokens(analyzer, record[..i]), analyzer(v));
  }

  /** One step of the header loop writes inside the prefix and keeps the invariant. */
  lemma HeaderStepFacts(doc: Document, header: seq<string>, record: seq<string>, analyzer: Analyzer, i: nat, n: nat)
    requires HeaderLoopInv(doc, header, record, analyzer, i, n)
    requires i < |header| && i < |record|
    requires FindField(doc, header[i]).Some?
    ensures var k := FindField(doc, header[i]).value;
            && k < n
            && FindField(doc[..n], header[i]) == Some(k)
            && HeaderStep(doc, k, record[i], analyzer)[..n] == SetValue(doc[..n], k, record[i])
            && HeaderLoopInv(HeaderStep(doc, k, record[i], analyzer), header, record, analyzer, i + 1, n)
  {
    HeaderStepIndex(doc, header, record, analyzer, i, n);
    HeaderStepInv(doc, header, record, analyzer, i, n, FindField(doc, header[i]).value);
  }

  /** The header loop keeps the shape of the prefix, and on success leaves exactly the new tokens after it. */
  lemma {:induction false} ReuseHeaderShape(doc: Document, header: seq<string>, record: seq<string>,
                                            analyzer: Analyzer, i: nat, n: nat)
    requires HeaderLoopInv(doc, header, record, analyzer, i, n)
    ensures var p := ReuseHeader(doc, header, record, analyzer, i);
            && n <= |p.doc| && NoCatchAll(p.doc[..n]) && AllCatchAll(p.doc[n..])
            && SameShape(p.doc[..n], doc[..n])
            && (p.error.None? ==> p.doc[n..] == CatchAllFields(Tokens(analyzer, record[..|header|])))
    decreases |header| - i
  {
    if i == |header| {
      assert record[..i] == record[..|header|];
    } else if Lookup(doc, header[i], Text).Success? && i < |record| && FindField(doc, header[i]).Some? {
      HeaderStepFacts(doc, header, record, analyzer, i, n);
      var d1 := HeaderStep(doc, FindField(doc, header[i]).value, record[i], analyzer);
      ReuseHeaderShape(d1, header, record, analyzer, i + 1, n);
    }
  }

  /** The header loop leaves every field it does not write as it was. */
  lemma {:induction false} ReuseHeaderKeeps(doc: Document, header: seq<string>, record: seq<string>,
                                            analyzer: Analyzer, i: nat, n: nat)
    requires HeaderLoopInv(doc, header, record, analyzer, i, n)
    ensures var p := ReuseHeader(doc, header, record, analyzer, i);
            && n <= |p.doc|
            && (forall k :: 0 <= k < n && p.doc[k].name !in header[i..] ==> p.doc[k] == doc[k])
            && (forall y :: y !in header[i..] && y != CatchAll ==> ValueOf(p.doc, y) == ValueOf(doc, y))
    decreases |header| - i
  {
    ReuseHeaderShape(doc, header, record, analyzer, i, n);
    if i < |header| && Lookup(doc, header[i], Text).Success? && i < |record| && FindField(doc, header[i]).Some? {
      var p := ReuseHeader(doc, header, record, analyzer, i);
      var k := FindField(doc, header[i]).value;
      var v := record[i];
      var set1 := SetValue(doc, k, v);
      var tail := CatchAllFields(analyzer(v));
      var d1 := HeaderStep(doc, k, v, analyzer);
      HeaderStepFacts(doc, header, record, analyzer, i, n);
      ReuseHeaderKeeps(d1, header, record, analyzer, i + 1, n);
      ReuseHeaderShape(d1, header, record, analyzer, i + 1, n);
      assert header[i + 1..] == header[i..][1..];
      forall y | y !in header[i..] && y != CatchAll
        ensures ValueOf(p.doc, y) == ValueOf(doc, y)
      {
        ValueOfAppend(set1, tail, y);
        ValueOfSetValue(doc, k, v, y);
      }
      forall k' | 0 <= k' < n && p.doc[k'].name !in header[i..]
        ensures p.doc[k'] == doc[k']
      {
        assert p.doc[..n][k'].name == d1[..n][k'].name;
      }
    }
  }

  /** On success, with distinct header names, the first field of each header name holds that column's value. */
  lemma {:induction false} ReuseHeaderWrites(doc: Document, header: seq<string>, record: seq<string>,
                                             analyzer: Analyzer, i: nat, n: nat)
    requires HeaderLoopInv(doc, header, record, analyzer, i, n)
    requires DistinctNames(header)
    ensures var p := ReuseHeader(doc, header, record, analyzer, i);
            p.error.None? ==> forall m :: i <= m < |header| ==> ValueOf(p.doc, header[m]) == Some(record[m])
    decreases |header| - i
  {
    var p := ReuseHeader(doc, header, record, analyzer, i);
    if i < |header| && p.error.None? {
      var k := FindField(doc, header[i]).value;
      var v := record[i];
      var d1 := HeaderStep(doc, k, v, analyzer);
      HeaderStepFacts(doc, header, record, analyzer, i, n);
      ReuseHeaderWrites(d1, header, record, analyzer, i + 1, n);
      ReuseHeaderKeeps(d1, header, record, analyzer, i + 1, n);
      assert header[i] !in header[i + 1..];
      ValueOfAppend(SetValue(doc, k, v), CatchAllFields(analyzer(v)), header[i]);
      ValueOfSetValue(doc, k, v, header[i]);
    }
  }

  /** When the prefix serves every remaining header name as a TextField and the record is long enough, the loop succeeds. */
  lemma {:induction false} ReuseHeaderSucceeds(doc: Document, header: seq<string>, record: seq<string>,
                                               analyzer: Analyzer, i: nat, n: nat)
    requires HeaderLoopInv(doc, header, record, analyzer, i, n)
    requires |header| <= |record|
    requires forall m :: i <= m < |header| ==> Serves(doc[..n], header[m], Text)
    ensures ReuseHeader(doc, header, record, analyzer, i).error.None?
    decreases |header| - i
  {
    if i < |header| {
      assert doc == doc[..n] + doc[n..];
      assert Serves(doc[..n], header[i], Text);
      ValueOfAppend(doc[..n], doc[n..], header[i]);
      var k := FindField(doc, header[i]).value;
      var d1 := HeaderStep(doc, k, record[i], analyzer);
      HeaderStepFacts(doc, header, record, analyzer, i, n);
      forall m | i + 1 <= m < |header| ensures Serves(d1[..n], header[m], Text) {
        ServesSameShape(d1[..n], doc[..n], header[m], Text);
      }
      ReuseHeaderSucceeds(d1, header, record, analyzer, i + 1, n);
    }
  }

  /** The loop invariant of the reuse of the metadata: catch-all-free prefix, catch-all suffix. */
  predicate MetaLoopInv(doc: Document, metadata: Entries, j: nat, n: nat)
  {
    j <= |metadata| && n <= |doc| && NoCatchAll(doc[..n]) && AllCatchAll(doc[n..])
  }

  /** One step of the metadata loop writes inside the prefix. */
  lemma MetaStepFacts(doc: Document, metadata: Entries, j: nat, n: nat)
    requires MetaLoopInv(doc, metadata, j, n) && j < |metadata|
    requires Lookup(doc, metadata[j].0, Str).Success? && FindField(doc, metadata[j].0).Some?
    ensures var k := FindField(doc, metadata[j].0).value;
            && k < n
            && SetValue(doc, k, metadata[j].1)[..n] == SetValue(doc[..n], k, metadata[j].1)
            && SetValue(doc, k, metadata[j].1)[n..] == doc[n..]
            && MetaLoopInv(SetValue(doc, k, metadata[j].1), metadata, j + 1, n)
  {
    var k := FindField(doc, metadata[j].0).value;
    assert AllCatchAll(doc[n..]);
    assert k < n;
    var d1 := SetValue(doc, k, metadata[j].1);
    assert d1[..n] == SetValue(doc[..n], k, metadata[j].1);
    assert d1[n..] == doc[n..];
  }

  lemma {:induction false} ReuseMetadataShape(doc: Document, metadata: Entries, j: nat, n: nat)
    requires MetaLoopInv(doc, metadata, j, n)
    ensures var p := ReuseMetadata(doc, metadata, j);
            && p.doc[n..] == doc[n..] && NoCatchAll(p.doc[..n]) && SameShape(p.doc[..n], doc[..n])
    decreases |metadata| - j
  {
    if j < |metadata| && Lookup(doc, metadata[j].0, Str).Success? && FindField(doc, metadata[j].0).Some? {
      MetaStepFacts(doc, metadata, j, n);
      ReuseMetadataShape(SetValue(doc, FindField(doc, metadata[j].0).value, metadata[j].1), metadata, j + 1, n);
    }
  }

  lemma {:induction false} ReuseMetadataKeeps(doc: Document, metadata: Entries, j: nat, n: nat)
    requires MetaLoopInv(doc, metadata, j, n)
    ensures var p := ReuseMetadata(doc, metadata, j);
            && (forall k :: 0 <= k < n && p.doc[k].name !in KeysFrom(metadata, j) ==> p.doc[k] == doc[k])
            && (forall y :: y !in KeysFrom(metadata, j) ==> ValueOf(p.doc, y) == ValueOf(doc, y))
    decreases |metadata| - j
  {
    ReuseMetadataShape(doc, metadata, j, n);
    if j < |metadata| && Lookup(doc, metadata[j].0, Str).Success? && FindField(doc, metadata[j].0).Some? {
      var p := ReuseMetadata(doc, metadata, j);
      var k := FindField(doc, metadata[j].0).value;
      var d1 := SetValue(doc, k, metadata[j].1);
      MetaStepFacts(doc, metadata, j, n);
      ReuseMetadataKeeps(d1, metadata, j + 1, n);
      ReuseMetadataShape(d1, metadata, j + 1, n);
      assert KeysFrom(metadata, j) == KeysFrom(metadata, j + 1) + {metadata[j].0};
      forall y | y !in KeysFrom(metadata, j)
        ensures ValueOf(p.doc, y) == ValueOf(doc, y)
      {
        ValueOfSetValue(doc, k, metadata[j].1, y);
      }
      forall k' | 0 <= k' < n && p.doc[k'].name !in KeysFrom(metadata, j)
        ensures p.doc[k'] == doc[k']
      {
        assert p.doc[..n][k'].name == d1[..n][k'].name;
      }
    }
  }

  lemma {:induction false} ReuseMetadataWrites(doc: Document, metadata: Entries, j: nat, n: nat)
    requires MetaLoopInv(doc, metadata, j, n)
    requires DistinctKeys(metadata)
    requires ReuseMetadata(doc, metadata, j).error.None?
    ensures forall m :: j <= m < |metadata| ==> ValueOf(ReuseMetadata(doc, metadata, j).doc, metadata[m].0) == Some(metadata[m].1)
    decreases |metadata| - j
  {
    if j < |metadata| {
      var k := FindField(doc, metadata[j].0).value;
      var d1 := SetValue(doc, k, metadata[j].1);
      MetaStepFacts(doc, metadata, j, n);
      ReuseMetadataWrites(d1, metadata, j + 1, n);
      ReuseMetadataWritesStep(doc, metadata, j, n);
    }
  }

  /** The head entry of a successful metadata reuse keeps the value written for it. */
  lemma ReuseMetadataWritesStep(doc: Document, metadata: Entries, j: nat, n: nat)
    requires MetaLoopInv(doc, metadata, j, n) && j < |metadata|
    requires DistinctKeys(metadata)
    requires ReuseMetadata(doc, metadata, j).error.None?
    requires FindField(doc, metadata[j].0).Some?
    requires var d1 := SetValue(doc, FindField(doc, metadata[j].0).value, metadata[j].1);
             forall m :: j + 1 <= m < |metadata| ==> ValueOf(ReuseMetadata(d1, metadata, j + 1).doc, metadata[m].0) == Some(metadata[m].1)
    ensures forall m :: j <= m < |metadata| ==> ValueOf(ReuseMetadata(doc, metadata, j).doc, metadata[m].0) == Some(metadata[m].1)
  {
    var k := FindField(doc, metadata[j].0).value;
    var d1 := SetValue(doc, k, metadata[j].1);
    var p := ReuseMetadata(doc, metadata, j);
    MetaStepFacts(doc, metadata, j, n);
    assert p == ReuseMetadata(d1, metadata, j + 1);
    ReuseMetadataKeeps(d1, metadata, j + 1, n);
    ValueOfSetValue(doc, k, metadata[j].1, metadata[j].0);
  }

  lemma {:induction false} ReuseMetadataSucceeds(doc: Document, metadata: Entries, j: nat, n: nat)
    requires MetaLoopInv(doc, metadata, j, n)
    requires forall m :: j <= m < |metadata| ==> Serves(doc[..n], metadata[m].0, Str)
    ensures ReuseMetadata(doc, metadata, j).error.None?
    decreases |metadata| - j
  {
    if j < |metadata| {
      assert doc == doc[..n] + doc[n..];
      assert Serves(doc[..n], metadata[j].0, Str);
      assert metadata[j].0 != CatchAll by {
        var k := FindField(doc[..n], metadata[j].0).value;
        assert doc[..n][k].name != CatchAll;
      }
      ValueOfAppend(doc[..n], doc[n..], metadata[j].0);
      var k := FindField(doc, metadata[j].0).value;
      var d1 := SetValue(doc, k, metadata[j].1);
      MetaStepFacts(doc, metadata, j, n);
      forall m | j + 1 <= m < |metadata| ensures Serves(d1[..n], metadata[m].0, Str) {
        ServesSameShape(d1[..n], doc[..n], metadata[m].0, Str);
      }
      ReuseMetadataSucceeds(d1, metadata, j + 1, n);
    }
  }

  // ---------------------------------------------------------------- reuse, whole call

  /** A document made of a catch-all-free prefix and a catch-all suffix projects onto its prefix. */
  lemma ProjectSplit(d: Document, n: nat)
    requires n <= |d| && NoCatchAll(d[..n]) && AllCatchAll(d[n..])
    ensures RemoveFields(d, CatchAll) == d[..n]
    ensures ValuesNamed(d, CatchAll) == ValuesNamed(d[n..], CatchAll)
  {
    assert d == d[..n] + d[n..];
    RemoveFieldsAppend(d[..n], d[n..], CatchAll);
    RemoveFieldsAbsent(d[..n], CatchAll);
    RemoveFieldsEvery(d[n..], CatchAll);
    ValuesNamedAppend(d[..n], d[n..], CatchAll);
    ValuesNamedAbsent(d[..n], CatchAll);
  }

  /** removeFields("_ALL") starts the header loop in its invariant. */
  lemma ReuseStart(prev: Document, header: seq<string>, record: seq<string>, analyzer: Analyzer)
    requires forall m :: 0 <= m < |header| ==> header[m] != CatchAll
    ensures var doc0 := RemoveFields(prev, CatchAll);
            HeaderLoopInv(doc0, header, record, analyzer, 0, |doc0|)
  {
    var doc0 := RemoveFields(prev, CatchAll);
    assert doc0[..|doc0|] == doc0;
    forall k | 0 <= k < |doc0| ensures doc0[k].name != CatchAll {
      assert doc0[k] in doc0;
    }
    assert record[..0] == [];
  }

  /**
   * Reuse keeps the shape of the buffer: apart from the catch-all fields,
   * it has the same number of fields with the same names, classes and
   * storage as before, whether the call succeeds or throws half way.
   */
  lemma ReuseKeepsShape(prev: Document, header: seq<string>, record: seq<string>, metadata: Entries,
                        analyzer: Analyzer, writerOpen: bool)
    requires forall m :: 0 <= m < |header| ==> header[m] != CatchAll
    ensures var b := BuildLuceneDocument(Some(prev), header, record, metadata, analyzer, writerOpen);
            && b.buffer.Some?
            && SameShape(RemoveFields(b.buffer.value, CatchAll), RemoveFields(prev, CatchAll))
  {
    var doc0 := RemoveFields(prev, CatchAll);
    var n := |doc0|;
    if !writerOpen && header != [] {
      ClosedWriterReuse(prev, header, record, metadata, analyzer);
      return;
    }
    ReuseStart(prev, header, record, analyzer);
    var p := ReuseHeader(doc0, header, record, analyzer, 0);
    ReuseHeaderShape(doc0, header, record, analyzer, 0, n);
    assert doc0[..n] == doc0;
    if p.error.Some? {
      ProjectSplit(p.doc, n);
    } else {
      var q := ReuseMetadata(p.doc, metadata, 0);
      ReuseMetadataShape(p.doc, metadata, 0, n);
      ProjectSplit(q.doc, n);
    }
  }

  /**
   * Reuse with a closed writer: the build throws at the first tokenization
   * or before it.  The buffer then holds no catch-all field, keeps the
   * shape it had without them, and only the first header field's value may
   * have changed, to the first record value.
   */
  lemma ClosedWriterReuse(prev: Document, header: seq<string>, record: seq<string>, metadata: Entries, analyzer: Analyzer)
    requires header != []
    ensures var b := BuildLuceneDocument(Some(prev), header, record, metadata, analyzer, false);
            var before := RemoveFields(prev, CatchAll);
            && b.result.Failure? && b.buffer.Some?
            && NoCatchAll(b.buffer.value)
            && RemoveFields(b.buffer.value, CatchAll) == b.buffer.value
            && SameShape(b.buffer.value, before)
            && (forall k :: 0 <= k < |before| && before[k].name != header[0] ==> b.buffer.value[k] == before[k])
            && (0 < |record| && Serves(before, header[0], Text) ==>
                  b.result == Failure(AlreadyClosed) && ValueOf(b.buffer.value, header[0]) == Some(record[0]))
  {
    var before := RemoveFields(prev, CatchAll);
    var b := BuildLuceneDocument(Some(prev), header, record, metadata, analyzer, false);
    forall k | 0 <= k < |before| ensures before[k].name != CatchAll {
      assert before[k] in before;
    }
    var d := b.buffer.value;
    assert NoCatchAll(d) by {
      forall k | 0 <= k < |d| ensures d[k].name != CatchAll {
        assert d[k].name == before[k].name;
      }
    }
    RemoveFieldsAbsent(d, CatchAll);
    var r := SetHeaderValue(before, header, record, 0);
    if r.Success? {
      var k0 := FindField(before, header[0]).value;
      ValueOfSetValue(before, k0, record[0], header[0]);
    }
  }

  /**
   * A CSV column named "_ALL" shares its name with the catch-all fields.
   * On reuse removeFields("_ALL") deletes its stored field as well, so when
   * it is the first column getField returns null and the build throws
   * NullPointerException, whether the writer is open or closed.
   */
  lemma CatchAllColumnFirstReuse(prev: Document, header: seq<string>, record: seq<string>, metadata: Entries,
                                 analyzer: Analyzer, writerOpen: bool)
    requires header != [] && header[0] == CatchAll && 0 < |record|
    ensures var b := BuildLuceneDocument(Some(prev), header, record, metadata, analyzer, writerOpen);
            b.result == Failure(NullPointer) && b.buffer == Some(RemoveFields(prev, CatchAll))
  {
    var doc0 := RemoveFields(prev, CatchAll);
    forall k | 0 <= k < |doc0| ensures doc0[k].name != CatchAll {
      assert doc0[k] in doc0;
    }
  }

  /** The first field laid down on first use is the stored field of the first column. */
  lemma {:induction false} FreshHeaderFirst(header: seq<string>, record: seq<string>, analyzer: Analyzer, i: nat)
    requires 1 <= i <= |header| <= |record|
    ensures |FreshHeader(header, record, analyzer, i)| >= 1
    ensures FreshHeader(header, record, analyzer, i)[0] == Field(header[0], record[0], Text, true)
    decreases i
  {
    if i > 1 {
      FreshHeaderFirst(header, record, analyzer, i - 1);
    }
  }

  /**
   * On first use a first column named "_ALL" is stored under that name, so
   * getField("_ALL") reads the raw column value and not a token.
   */
  lemma CatchAllColumnFirstUse(header: seq<string>, record: seq<string>, metadata: Entries, analyzer: Analyzer)
    requires header != [] && header[0] == CatchAll && |header| <= |record|
    ensures var b := BuildLuceneDocument(None, header, record, metadata, analyzer, true);
            && b.result.Success?
            && b.result.value[0] == Field(CatchAll, record[0], Text, true)
            && ValueOf(b.result.value, CatchAll) == Some(record[0])
  {
    FreshHeaderFirst(header, record, analyzer, |header|);
    var d := BuildLuceneDocument(None, header, record, metadata, analyzer, true).result.value;
    FindFieldAt(d, 0);
  }

  /**
   * No stale tokens: after a successful reuse the catch-all values are
   * exactly the tokens of the current header values, in header order,
   * whatever the buffer held before, and every catch-all field is an
   * unstored TextField.
   */
  lemma ReuseNoStaleTokens(prev: Document, header: seq<string>, record: seq<string>, metadata: Entries, analyzer: Analyzer)
    requires forall m :: 0 <= m < |header| ==> header[m] != CatchAll
    ensures var b := BuildLuceneDocument(Some(prev), header, record, metadata, analyzer, true);
            b.result.Success? ==>
              && ValuesNamed(b.result.value, CatchAll) == Tokens(analyzer, record[..|header|])
              && forall k :: 0 <= k < |b.result.value| && b.result.value[k].name == CatchAll ==>
                   b.result.value[k].kind == Text && !b.result.value[k].stored
  {
    var b := BuildLuceneDocument(Some(prev), header, record, metadata, analyzer, true);
    var doc0 := RemoveFields(prev, CatchAll);
    var n := |doc0|;
    ReuseStart(prev, header, record, analyzer);
    var p := ReuseHeader(doc0, header, record, analyzer, 0);
    ReuseHeaderShape(doc0, header, record, analyzer, 0, n);
    if b.result.Success? {
      var q := ReuseMetadata(p.doc, metadata, 0);
      ReuseMetadataShape(p.doc, metadata, 0, n);
      ProjectSplit(q.doc, n);
      ValuesNamedCatchAll(Tokens(analyzer, record[..|header|]));
      CatchAllSuffix(q.doc, n);
    }
  }

  /** In a document split into a catch-all-free prefix and a catch-all suffix, every catch-all field is an unstored TextField. */
  lemma CatchAllSuffix(d: Document, n: nat)
    requires n <= |d| && NoCatchAll(d[..n]) && AllCatchAll(d[n..])
    ensures forall k :: 0 <= k < |d| && d[k].name == CatchAll ==> d[k].kind == Text && !d[k].stored
  {
    forall k | 0 <= k < |d| && d[k].name == CatchAll ensures d[k].kind == Text && !d[k].stored {
      if n <= k {
        assert d[n..][k - n] == d[k];
      }
    }
  }

  /**
   * Reuse overwrites in place: with distinct header names, distinct
   * metadata keys and no name shared between the two, a successful reuse
   * leaves each header column's value and each metadata value in the
   * first field of that name, and every other non-catch-all field as it was.
   */
  lemma ReuseOverwrites(prev: Document, header: seq<string>, record: seq<string>, metadata: Entries, analyzer: Analyzer)
    requires forall m :: 0 <= m < |header| ==> header[m] != CatchAll
    requires DistinctNames(header) && DistinctKeys(metadata)
    requires forall i, m :: 0 <= i < |header| && 0 <= m < |metadata| ==> header[i] != metadata[m].0
    ensures var b := BuildLuceneDocument(Some(prev), header, record, metadata, analyzer, true);
            var before := RemoveFields(prev, CatchAll);
            b.result.Success? ==>
              && (forall m :: 0 <= m < |header| ==> ValueOf(b.result.value, header[m]) == Some(record[m]))
              && (forall m :: 0 <= m < |metadata| ==> ValueOf(b.result.value, metadata[m].0) == Some(metadata[m].1))
              && |RemoveFields(b.result.value, CatchAll)| == |before|
              && (forall k :: 0 <= k < |before| && before[k].name !in header && before[k].name !in Keys(metadata) ==>
                    RemoveFields(b.result.value, CatchAll)[k] == before[k])
  {
    var b := BuildLuceneDocument(Some(prev), header, record, metadata, analyzer, true);
    var doc0 := RemoveFields(prev, CatchAll);
    var n := |doc0|;
    ReuseStart(prev, header, record, analyzer);
    var p := ReuseHeader(doc0, header, record, analyzer, 0);
    ReuseHeaderShape(doc0, header, record, analyzer, 0, n);
    if b.result.Success? {
      var q := ReuseMetadata(p.doc, metadata, 0);
      var d := q.doc;
      ReuseHeaderKeeps(doc0, header, record, analyzer, 0, n);
      ReuseHeaderWrites(doc0, header, record, analyzer, 0, n);
      ReuseMetadataShape(p.doc, metadata, 0, n);
      ReuseMetadataKeeps(p.doc, metadata, 0, n);
      ReuseMetadataWrites(p.doc, metadata, 0, n);
      ProjectSplit(d, n);
      assert header[0..] == header;
      forall m | 0 <= m < |header| ensures ValueOf(d, header[m]) == Some(record[m]) {
        assert header[m] !in KeysFrom(metadata, 0);
      }
      forall k | 0 <= k < n && doc0[k].name !in header && doc0[k].name !in Keys(metadata)
        ensures d[..n][k] == doc0[k]
      {
        assert doc0[..n] == doc0;
        assert p.doc[..n][k].name == doc0[k].name;
        assert doc0[k].name !in KeysFrom(metadata, 0);
      }
    }
  }

  /** The buffer serves every header name as a TextField and every metadata key as a StringField. */
  predicate FitsSchema(doc: Document, header: seq<string>, metadata: Entries)
  {
    && (forall m :: 0 <= m < |header| ==> Serves(RemoveFields(doc, CatchAll), header[m], Text))
    && (forall m :: 0 <= m < |metadata| ==> Serves(RemoveFields(doc, CatchAll), metadata[m].0, Str))
  }

  /** The first record of a worker lays down a buffer that fits its schema. */
  lemma FirstUseFitsSchema(header: seq<string>, record: seq<string>, metadata: Entries, analyzer: Analyzer)
    requires |header| <= |record|
    requires forall m :: 0 <= m < |header| ==> header[m] != CatchAll
    requires forall m :: 0 <= m < |metadata| ==> metadata[m].0 != CatchAll
    requires DistinctNames(header) && DistinctKeys(metadata)
    requires forall i, m :: 0 <= i < |header| && 0 <= m < |metadata| ==> header[i] != metadata[m].0
    ensures var b := BuildLuceneDocument(None, header, record, metadata, analyzer, true);
            b.result.Success? && FitsSchema(b.result.value, header, metadata)
  {
    FirstUseLayout(header, record, metadata, analyzer);
    var d := BuildLuceneDocument(None, header, record, metadata, analyzer, true).result.value;
    assert RemoveFields(d, CatchAll) == HeaderFields(header, record) + MetadataFields(metadata);
    LayoutServesHeader(header, record, metadata);
    LayoutServesMetadata(header, record, metadata);
  }

  /** The stored fields laid down on first use serve each header name as a TextField. */
  lemma LayoutServesHeader(header: seq<string>, record: seq<string>, metadata: Entries)
    requires |header| <= |record| && DistinctNames(header)
    ensures forall m :: 0 <= m < |header| ==> Serves(HeaderFields(header, record) + MetadataFields(metadata), header[m], Text)
  {
    var proj := HeaderFields(header, record) + MetadataFields(metadata);
    forall m | 0 <= m < |header| ensures Serves(proj, header[m], Text) {
      assert proj[m].name == header[m];
      forall j | 0 <= j < m ensures proj[j].name != proj[m].name {
        assert proj[j].name == header[j];
      }
      FindFieldAt(proj, m);
    }
  }

  /** The stored fields laid down on first use serve each metadata key as a StringField. */
  lemma LayoutServesMetadata(header: seq<string>, record: seq<string>, metadata: Entries)
    requires |header| <= |record| && DistinctKeys(metadata)
    requires forall i, m :: 0 <= i < |header| && 0 <= m < |metadata| ==> header[i] != metadata[m].0
    ensures forall m :: 0 <= m < |metadata| ==> Serves(HeaderFields(header, record) + MetadataFields(metadata), metadata[m].0, Str)
  {
    var proj := HeaderFields(header, record) + MetadataFields(metadata);
    forall m | 0 <= m < |metadata| ensures Serves(proj, metadata[m].0, Str) {
      var k := |header| + m;
      assert proj[k].name == metadata[m].0;
      forall j | 0 <= j < k ensures proj[j].name != proj[k].name {
        if j < |header| {
          assert proj[j].name == header[j];
        } else {
          assert proj[j].name == metadata[j - |header|].0;
        }
      }
      FindFieldAt(proj, k);
    }
  }

  /**
   * A buffer that fits the schema is reused without exception for every
   * record at least as long as the header, and still fits it afterwards:
   * all records of one file sharing a header and metadata keys build.
   */
  lemma SchemaReuseSucceeds(prev: Document, header: seq<string>, record: seq<string>, metadata: Entries, analyzer: Analyzer)
    requires |header| <= |record|
    requires forall m :: 0 <= m < |header| ==> header[m] != CatchAll
    requires FitsSchema(prev, header, metadata)
    ensures var b := BuildLuceneDocument(Some(prev), header, record, metadata, analyzer, true);
            b.result.Success? && FitsSchema(b.result.value, header, metadata)
  {
    var doc0 := RemoveFields(prev, CatchAll);
    var n := |doc0|;
    SchemaHeaderStage(prev, header, record, metadata, analyzer);
    var p := ReuseHeader(doc0, header, record, analyzer, 0);
    ReuseMetadataSucceeds(p.doc, metadata, 0, n);
    var q := ReuseMetadata(p.doc, metadata, 0);
    ReuseMetadataShape(p.doc, metadata, 0, n);
    ProjectSplit(q.doc, n);
    SchemaKept(q.doc[..n], doc0, header, metadata);
  }

  /** The header stage of a schema-fitting reuse succeeds and leaves the metadata loop able to run. */
  lemma SchemaHeaderStage(prev: Document, header: seq<string>, record: seq<string>, metadata: Entries, analyzer: Analyzer)
    requires |header| <= |record|
    requires forall m :: 0 <= m < |header| ==> header[m] != CatchAll
    requires FitsSchema(prev, header, metadata)
    ensures var doc0 := RemoveFields(prev, CatchAll);
            var p := ReuseHeader(doc0, header, record, analyzer, 0);
            && p.error.None?
            && MetaLoopInv(p.doc, metadata, 0, |doc0|)
            && SameShape(p.doc[..|doc0|], doc0)
            && forall m :: 0 <= m < |metadata| ==> Serves(p.doc[..|doc0|], metadata[m].0, Str)
  {
    var doc0 := RemoveFields(prev, CatchAll);
    var n := |doc0|;
    ReuseStart(prev, header, record, analyzer);
    assert doc0[..n] == doc0;
    var p := ReuseHeader(doc0, header, record, analyzer, 0);
    ReuseHeaderSucceeds(doc0, header, record, analyzer, 0, n);
    ReuseHeaderShape(doc0, header, record, analyzer, 0, n);
    forall m | 0 <= m < |metadata| ensures Serves(p.doc[..n], metadata[m].0, Str) {
      ServesSameShape(p.doc[..n], doc0, metadata[m].0, Str);
    }
  }

  /** A document shaped like one that serves the schema serves it too. */
  lemma SchemaKept(d: Document, doc0: Document, header: seq<string>, metadata: Entries)
    requires SameShape(d, doc0)
    requires forall m :: 0 <= m < |header| ==> Serves(doc0, header[m], Text)
    requires forall m :: 0 <= m < |metadata| ==> Serves(doc0, metadata[m].0, Str)
    ensures forall m :: 0 <= m < |header| ==> Serves(d, header[m], Text)
    ensures forall m :: 0 <= m < |metadata| ==> Serves(d, metadata[m].0, Str)
  {
    forall m | 0 <= m < |header| ensures Serves(d, header[m], Text) {
      ServesSameShape(d, doc0, header[m], Text);
    }
    forall m | 0 <= m < |metadata| ensures Serves(d, metadata[m].0, Str) {
      ServesSameShape(d, doc0, metadata[m].0, Str);
    }
  }

  // ---------------------------------------------------------------- record length

  lemma {:induction false} FreshHeaderPrefix(header: seq<string>, record: seq<string>, analyzer: Analyzer, i: nat)
    requires i <= |header| <= |record|
    ensures FreshHeader(header, record, analyzer, i) == FreshHeader(header, record[..|header|], analyzer, i)
    decreases i
  {
    if i > 0 {
      FreshHeaderPrefix(header, record, analyzer, i - 1);
    }
  }

  lemma {:induction false} ReuseHeaderPrefix(doc: Document, header: seq<string>, record: seq<string>, analyzer: Analyzer, i: nat)
    requires i <= |header| <= |record|
    ensures ReuseHeader(doc, header, record, analyzer, i) == ReuseHeader(doc, header, record[..|header|], analyzer, i)
    decreases |header| - i
  {
    if i < |header| {
      match Lookup(doc, header[i], Text)
      case Failure(e) =>
      case Success(found) =>
        if found.Some? {
          ReuseHeaderPrefix(SetValue(doc, found.value, record[i]) + CatchAllFields(analyzer(record[i])),
                            header, record, analyzer, i + 1);
        }
    }
  }

  /** Only the first |header| values of a record are read: extra values change nothing. */
  lemma ExtraValuesIgnored(buffer: Option<Document>, header: seq<string>, record: seq<string>,
                           metadata: Entries, analyzer: Analyzer, writerOpen: bool)
    requires |header| <= |record|
    ensures BuildLuceneDocument(buffer, header, record, metadata, analyzer, writerOpen)
            == BuildLuceneDocument(buffer, header, record[..|header|], metadata, analyzer, writerOpen)
  {
    match buffer
    case None =>
      FreshHeaderPrefix(header, record, analyzer, |header|);
    case Some(prev) =>
      if !writerOpen && header != [] {
        assert record[..|header|][0] == record[0];
      } else {
        ReuseHeaderPrefix(RemoveFields(prev, CatchAll), header, record, analyzer, 0);
      }
  }
}
