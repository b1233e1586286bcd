/**
 * RecordThread: the older worker that indexes a record given as a map from
 * column name to value. Every value is lower-cased and trimmed and stored
 * in a StringField; the fields of the thread's buffer are created on its
 * first record and overwritten in place for every later one.
 */
module RecordThread {
  import opened Wrappers
  import opened JavaLang
  import opened Documents
  import opened IndexWriterModel

  /** value.toLowerCase().trim(): the form in which a value is indexed. */
  function Normalize(v: string): (r: string)
    ensures |r| <= |v|
    ensures r == [] || (!IsSpace(r[0]) && !IsSpace(r[|r| - 1]))
    ensures NoUpper(r)
  {
    LowerNoUpper(v);
    TrimNoUpper(Lower(v));
    Trim(Lower(v))
  }

  /** First use: one stored StringField per entry, in the map's iteration order. */
  function FreshFields(record: Entries): (r: Document)
    ensures |r| == |record|
    ensures forall k :: 0 <= k < |r| ==> r[k].name == record[k].0 && r[k].kind == Str && r[k].stored
  {
    seq(|record|, k requires 0 <= k < |record| => Field(record[k].0, Normalize(record[k].1), Str, true))
  }

  /**
   * Reuse, entries [j, |record|): getField(key) cast to StringField and its
   * value overwritten. A field of another class raises ClassCastException, a
   * missing one NullPointerException; the fields already overwritten stay so.
   */
  function Refill(doc: Document, record: Entries, j: nat): (p: Progress)
    requires j <= |record|
    ensures SameShape(p.doc, doc)
    decreases |record| - j
  {
    if j == |record| then Progress(doc, None)
    else match Lookup(doc, record[j].0, Str)
      case Failure(e) => Progress(doc, Some(e))
      case Success(found) =>
        if found.None? then Progress(doc, Some(NullPointer))
        else
          var d1 := SetValue(doc, found.value, Normalize(record[j].1));
          var p := Refill(d1, record, j + 1);
          SameShapeTrans(p.doc, d1, doc);
          p
  }

  /** addDocument, with an IOException logged and swallowed; anything else escapes run(). */
  function Add(buffer: Document, w: Writer, outcome: AddOutcome): (r: RunResult)
    ensures r.buffer == Some(buffer)
    ensures r.error.None? <==> w.open && (outcome == Added || outcome == AddFailsIo)
    ensures r.writer.documents == w.documents || r.writer.documents == w.documents + [buffer]
    ensures r.writer.documents == w.documents + [buffer] <==> w.open && outcome == Added
    ensures r.writer.open == w.open
  {
    match AddDocument(w, buffer, outcome)
    case Success(w') => RunResult(Some(buffer), w', None)
    case Failure(e) => RunResult(Some(buffer), w, if e == IOException then None else Some(e))
  }

  /** run(): fill the thread's buffer from the record, then add it to the writer. */
  function Run(buffer: Option<Document>, w: Writer, record: Entries, outcome: AddOutcome): (r: RunResult)
    ensures r.buffer.Some?
    ensures buffer.None? ==> r.buffer == Some(FreshFields(record))
    ensures buffer.Some? ==> SameShape(r.buffer.value, buffer.value)
    ensures r.writer.open == w.open
    ensures r.writer.documents == w.documents || r.writer.documents == w.documents + [r.buffer.value]
  {
    match buffer
    case None => Add(FreshFields(record), w, outcome)
    case Some(prev) =>
      var p := Refill(prev, record, 0);
      if p.error.Some? then RunResult(Some(p.doc), w, p.error)
      else Add(p.doc, w, outcome)
  }

  // ---------------------------------------------------------------- first use

  /** With distinct keys, the first record's buffer holds each value, normalized, under its key. */
  lemma FirstUseValues(record: Entries)
    requires DistinctKeys(record)
    ensures forall m :: 0 <= m < |record| ==> ValueOf(FreshFields(record), record[m].0) == Some(Normalize(record[m].1))
    ensures forall m :: 0 <= m < |record| ==> Serves(FreshFields(record), record[m].0, Str)
  {
    var d := FreshFields(record);
    forall m | 0 <= m < |record|
      ensures ValueOf(d, record[m].0) == Some(Normalize(record[m].1)) && Serves(d, record[m].0, Str)
    {
      FindFieldAt(d, m);
    }
  }

  /** Normalizing an already normalized value changes nothing. */
  lemma NormalizeIdempotent(v: string)
    ensures Normalize(Normalize(v)) == Normalize(v)
  {
    var r := Normalize(v);
    LowerNoUpper(r);
    TrimOfTrimmed(r);
  }

  // ---------------------------------------------------------------- reuse

  function KeySet(record: Entries, j: nat): set<string>
  {
    set m | j <= m < |record| :: record[m].0
  }

  /** Reuse fails exactly when some remaining key is missing from the buffer or is not a StringField there. */
  lemma {:induction false} RefillFailsIff(doc: Document, record: Entries, j: nat)
    requires j <= |record|
    ensures Refill(doc, record, j).error.Some? <==> exists m :: j <= m < |record| && !Serves(doc, record[m].0, Str)
    decreases |record| - j
  {
    if j < |record| {
      match Lookup(doc, record[j].0, Str)
      case Failure(e) =>
      case Success(found) =>
        if found.Some? {
          var d1 := SetValue(doc, found.value, Normalize(record[j].1));
          RefillFailsIff(d1, record, j + 1);
          forall m | j + 1 <= m < |record| ensures Serves(d1, record[m].0, Str) == Serves(doc, record[m].0, Str) {
            ServesSameShape(d1, doc, record[m].0, Str);
          }
        }
    }
  }

  /** Reuse leaves every field whose name is not a remaining key exactly as it was. */
  lemma {:induction false} RefillKeeps(doc: Document, record: Entries, j: nat)
    requires j <= |record|
    ensures var p := Refill(doc, record, j);
            forall k :: 0 <= k < |doc| && doc[k].name !in KeySet(record, j) ==> p.doc[k] == doc[k]
    decreases |record| - j
  {
    if j < |record| {
      match Lookup(doc, record[j].0, Str)
      case Failure(e) =>
      case Success(found) =>
        if found.Some? {
          var d1 := SetValue(doc, found.value, Normalize(record[j].1));
          RefillKeeps(d1, record, j + 1);
          assert KeySet(record, j + 1) <= KeySet(record, j);
        }
    }
  }

  /** A reuse that gets past entry j found a field for its key and overwrote it. */
  lemma RefillStep(doc: Document, record: Entries, j: nat)
    requires j < |record| && Refill(doc, record, j).error.None?
    ensures FindField(doc, record[j].0).Some?
    ensures Refill(doc, record, j)
            == Refill(SetValue(doc, FindField(doc, record[j].0).value, Normalize(record[j].1)), record, j + 1)
  {
  }

  /** The key overwritten first keeps its new value when no later entry has the same key. */
  lemma RefillHead(doc: Document, record: Entries, j: nat)
    requires j < |record| && Refill(doc, record, j).error.None?
    requires record[j].0 !in KeySet(record, j + 1)
    ensures ValueOf(Refill(doc, record, j).doc, record[j].0) == Some(Normalize(record[j].1))
  {
    RefillStep(doc, record, j);
    var key := record[j].0;
    var k := FindField(doc, key).value;
    var d1 := SetValue(doc, k, Normalize(record[j].1));
    var p := Refill(d1, record, j + 1);
    RefillKeeps(d1, record, j + 1);
    FindFieldSameNames(d1, doc, key);
    FindFieldSameNames(p.doc, d1, key);
    assert p.doc[k] == d1[k];
  }

  /** Every entry from position j on has its value, normalized, under its key in `doc`. */
  predicate WroteFrom(doc: Document, record: Entries, j: nat)
  {
    forall m :: j <= m < |record| ==> ValueOf(doc, record[m].0) == Some(Normalize(record[m].1))
  }

  /** A successful reuse with distinct keys leaves each value, normalized, under its key. */
  lemma {:induction false} RefillWrites(doc: Document, record: Entries, j: nat)
    requires j <= |record|
    requires DistinctKeys(record)
    requires Refill(doc, record, j).error.None?
    ensures WroteFrom(Refill(doc, record, j).doc, record, j)
    decreases |record| - j
  {
    if j < |record| {
      RefillStep(doc, record, j);
      var k := FindField(doc, record[j].0).value;
      var d1 := SetValue(doc, k, Normalize(record[j].1));
      RefillWrites(d1, record, j + 1);
      RefillWritesStep(doc, record, j);
    }
  }

  /** One step of RefillWrites: what the rest of the reuse wrote, plus the head entry. */
  lemma RefillWritesStep(doc: Document, record: Entries, j: nat)
    requires j < |record| && DistinctKeys(record) && Refill(doc, record, j).error.None?
    requires FindField(doc, record[j].0).Some?
    requires WroteFrom(Refill(SetValue(doc, FindField(doc, record[j].0).value, Normalize(record[j].1)), record, j + 1).doc, record, j + 1)
    ensures WroteFrom(Refill(doc, record, j).doc, record, j)
  {
    RefillStep(doc, record, j);
    DistinctHead(record, j);
    RefillHead(doc, record, j);
    WroteFromStep(Refill(doc, record, j).doc, record, j);
  }

  /** With distinct keys, the key at position j does not come back later. */
  lemma DistinctHead(record: Entries, j: nat)
    requires j < |record| && DistinctKeys(record)
    ensures record[j].0 !in KeySet(record, j + 1)
  {
  }

  lemma WroteFromStep(doc: Document, record: Entries, j: nat)
    requires j < |record| && WroteFrom(doc, record, j + 1)
    requires ValueOf(doc, record[j].0) == Some(Normalize(record[j].1))
    ensures WroteFrom(doc, record, j)
  {
  }

  // ---------------------------------------------------------------- a thread's sequence of records

  /**
   * The records one thread runs, each with its own outcome of addDocument,
   * up to its first exception. The buffer carries over from record to
   * record; an exception escaping run() ends the pool's worker thread, and
   * the thread that replaces it starts with no buffer.
   */
  function RunAll(buffer: Option<Document>, w: Writer, records: seq<Entries>, outcomes: seq<AddOutcome>): (r: RunResult)
    requires |outcomes| == |records|
    ensures records != [] ==> r.buffer.Some?
    ensures r.writer.open == w.open
    ensures |w.documents| <= |r.writer.documents| <= |w.documents| + |records|
    ensures r.writer.documents[..|w.documents|] == w.documents
    decreases |records|
  {
    if records == [] then RunResult(buffer, w, None)
    else
      var r1 := Run(buffer, w, records[0], outcomes[0]);
      if r1.error.Some? then r1
      else RunAll(r1.buffer, r1.writer, records[1..], outcomes[1..])
  }

  /** The buffer holds one field per key and serves every key as a StringField. */
  predicate FitsKeys(doc: Document, keys: seq<string>)
  {
    |doc| == |keys| && forall m :: 0 <= m < |keys| ==> Serves(doc, keys[m], Str)
  }

  /** The document indexed for `record` holds each of its values, normalized, under its key. */
  predicate Indexed(doc: Document, record: Entries)
  {
    |doc| == |record| && forall m :: 0 <= m < |record| ==> ValueOf(doc, record[m].0) == Some(Normalize(record[m].1))
  }

  /** The record's keys are exactly `keys`, in any order. */
  predicate SameKeySet(record: Entries, keys: seq<string>)
  {
    && |record| == |keys|
    && (forall m :: 0 <= m < |record| ==> record[m].0 in keys)
    && (forall m :: 0 <= m < |keys| ==> exists m' :: 0 <= m' < |record| && record[m'].0 == keys[m])
  }

  /** One record of the common key set, on a buffer that is empty or fits it, is indexed and leaves a fitting buffer. */
  lemma RunOnSchema(buffer: Option<Document>, w: Writer, record: Entries, keys: seq<string>)
    requires w.open && DistinctKeys(record) && SameKeySet(record, keys)
    requires buffer.Some? ==> FitsKeys(buffer.value, keys)
    ensures var r := Run(buffer, w, record, Added);
            && r.error.None?
            && r.writer == Writer(true, w.documents + [r.buffer.value])
            && Indexed(r.buffer.value, record)
            && FitsKeys(r.buffer.value, keys)
  {
    var r := Run(buffer, w, record, Added);
    match buffer
    case None =>
      FirstUseValues(record);
      forall m | 0 <= m < |keys| ensures Serves(FreshFields(record), keys[m], Str) {
        var m' :| 0 <= m' < |record| && record[m'].0 == keys[m];
      }
    case Some(prev) =>
      forall m | 0 <= m < |record| ensures Serves(prev, record[m].0, Str) {
        var m' :| 0 <= m' < |keys| && keys[m'] == record[m].0;
      }
      RefillFailsIff(prev, record, 0);
      RefillWrites(prev, record, 0);
      assert WroteFrom(Refill(prev, record, 0).doc, record, 0);
      var p := Refill(prev, record, 0);
      forall m | 0 <= m < |keys| ensures Serves(p.doc, keys[m], Str) {
        ServesSameShape(p.doc, prev, keys[m], Str);
      }
  }

  /** Each document indexes the record at the same position. */
  predicate IndexedAll(docs: seq<Document>, records: seq<Entries>)
  {
    |docs| == |records| && forall i :: 0 <= i < |records| ==> Indexed(docs[i], records[i])
  }

  lemma IndexedAllCons(d: Document, docs: seq<Document>, record: Entries, records: seq<Entries>)
    requires Indexed(d, record) && IndexedAll(docs, records)
    ensures IndexedAll([d] + docs, [record] + records)
  {
    assert forall i :: 0 < i <= |records| ==> ([d] + docs)[i] == docs[i - 1] && ([record] + records)[i] == records[i - 1];
  }

  /** Every record has distinct keys, and the key set `keys`, in any order. */
  predicate OnSchema(records: seq<Entries>, keys: seq<string>)
  {
    forall i :: 0 <= i < |records| ==> DistinctKeys(records[i]) && SameKeySet(records[i], keys)
  }

  predicate AllAdded(outcomes: seq<AddOutcome>)
  {
    forall i :: 0 <= i < |outcomes| ==> outcomes[i] == Added
  }

  /** The writer's documents after a run of records on the schema: the old ones, then one per record. */
  predicate Appended(before: seq<Document>, after: seq<Document>, records: seq<Entries>)
  {
    |before| <= |after| && after[..|before|] == before && IndexedAll(after[|before|..], records)
  }

  lemma AppendedCons(before: seq<Document>, d: Document, after: seq<Document>, record: Entries, records: seq<Entries>)
    requires Indexed(d, record) && Appended(before + [d], after, records)
    ensures Appended(before, after, [record] + records)
  {
    var n := |before|;
    assert after[..n] == after[..n + 1][..n];
    assert after[n..] == [d] + after[n + 1..];
    IndexedAllCons(d, after[n + 1..], record, records);
  }

  /**
   * A thread that runs records sharing one set of distinct keys against an
   * open writer that accepts everything indexes every record, in order, with
   * its own values: the shared buffer never leaks a value of one record into
   * the document of another.
   */
  lemma {:induction false} RunAllOnSchema(buffer: Option<Document>, w: Writer, records: seq<Entries>,
                                          outcomes: seq<AddOutcome>, keys: seq<string>)
    requires |outcomes| == |records| && w.open
    requires AllAdded(outcomes) && OnSchema(records, keys)
    requires buffer.Some? ==> FitsKeys(buffer.value, keys)
    ensures RunAll(buffer, w, records, outcomes).error.None?
    ensures Appended(w.documents, RunAll(buffer, w, records, outcomes).writer.documents, records)
    decreases |records|
  {
    if records == [] {
      assert w.documents[|w.documents|..] == [];
    } else {
      var r1 := Run(buffer, w, records[0], outcomes[0]);
      OnSchemaTail(records, outcomes, keys);
      RunOnSchema(buffer, w, records[0], keys);
      RunAllStep(buffer, w, records, outcomes);
      RunAllOnSchema(r1.buffer, r1.writer, records[1..], outcomes[1..], keys);
      var rest := RunAll(r1.buffer, r1.writer, records[1..], outcomes[1..]);
      AppendedCons(w.documents, r1.buffer.value, rest.writer.documents, records[0], records[1..]);
    }
  }

  /** The rest of a run on the schema is on the schema, with every outcome Added. */
  lemma OnSchemaTail(records: seq<Entries>, outcomes: seq<AddOutcome>, keys: seq<string>)
    requires records != [] && |outcomes| == |records|
    requires AllAdded(outcomes) && OnSchema(records, keys)
    ensures AllAdded(outcomes[1..]) && OnSchema(records[1..], keys)
    ensures outcomes[0] == Added && DistinctKeys(records[0]) && SameKeySet(records[0], keys)
    ensures [records[0]] + records[1..] == records
  {
    assert [records[0]] + records[1..] == records;
    assert forall i :: 0 <= i < |records| - 1 ==> records[1..][i] == records[i + 1];
    assert forall i :: 0 <= i < |outcomes| - 1 ==> outcomes[1..][i] == outcomes[i + 1];
  }

  /** A thread whose first record raises nothing goes on with the rest. */
  lemma RunAllStep(buffer: Option<Document>, w: Writer, records: seq<Entries>, outcomes: seq<AddOutcome>)
    requires records != [] && |outcomes| == |records|
    requires Run(buffer, w, records[0], outcomes[0]).error.None?
    ensures var r1 := Run(buffer, w, records[0], outcomes[0]);
            RunAll(buffer, w, records, outcomes) == RunAll(r1.buffer, r1.writer, records[1..], outcomes[1..])
  {
  }
}
