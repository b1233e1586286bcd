/**
 * DocumentFlyweightPool: a fixed number of blank documents, filled on the
 * first request and handed out round robin. The model follows one pool
 * through a sequence of synchronized getDocument calls; a document is
 * identified by its slot in the pool.
 */
module FlyweightPool {
  import opened Wrappers
  import opened JavaLang
  import opened Documents

  /** The pool's documents, its configured size and the slot handed out last. */
  datatype Pool = Pool(docs: seq<Document>, size: int, cursor: int)

  /** The states a pool can reach: empty until the first request, then exactly `size` documents. */
  predicate Valid(p: Pool)
  {
    && p.size >= 0
    && (|p.docs| == 0 || |p.docs| == p.size)
    && (if p.size == 0 then p.cursor >= 0 else 0 <= p.cursor < p.size)
  }

  /** The constructor: new ArrayList(size) rejects a negative size. */
  function NewPool(size: int): (r: Result<Pool, Exception>)
    ensures r.Failure? <==> size < 0
    ensures r.Failure? ==> r.error == IllegalArgument
    ensures r.Success? ==> Valid(r.value) && r.value.docs == [] && r.value.size == size
  {
    if size < 0 then Failure(IllegalArgument) else Success(Pool([], size, 0))
  }

  /** create: one stored, empty StringField per key of the record. */
  function Blank(record: Entries): (d: Document)
    ensures |d| == |record|
    ensures forall k :: 0 <= k < |d| ==> d[k].name == record[k].0 && d[k].value == [] && d[k].kind == Str && d[k].stored
  {
    seq(|record|, k requires 0 <= k < |record| => Field(record[k].0, [], Str, true))
  }

  /** populate: `size` blank documents appended, whatever the pool already holds. */
  function Populate(docs: seq<Document>, size: nat, record: Entries): (r: seq<Document>)
    ensures |r| == |docs| + size
    ensures r[..|docs|] == docs
    ensures forall k :: |docs| <= k < |r| ==> r[k] == Blank(record)
  {
    docs + seq(size, _ => Blank(record))
  }

  /** The slot after `cursor`: back to 0 after the last one. */
  function Advance(cursor: int, size: int): int
  {
    if cursor == size - 1 then 0 else cursor + 1
  }

  /**
   * getDocument: fill the pool if it holds fewer than `size` documents,
   * advance the cursor, and return the slot it now points at. With a size
   * of 0 the list stays empty and list.get throws, after the cursor moved.
   */
  function GetDocument(p: Pool, record: Entries): (r: (Pool, Result<nat, Exception>))
    requires Valid(p)
    ensures Valid(r.0) && r.0.size == p.size
    ensures r.1.Success? <==> p.size > 0
    ensures r.1.Success? ==> r.1.value == r.0.cursor && r.1.value < |r.0.docs|
    ensures p.size > 0 ==> |r.0.docs| == p.size
    ensures |p.docs| == p.size ==> r.0.docs == p.docs
  {
    var docs := if |p.docs| < p.size then Populate(p.docs, p.size, record) else p.docs;
    var cursor := Advance(p.cursor, p.size);
    var q := Pool(docs, p.size, cursor);
    if 0 <= cursor < |docs| then (q, Success(cursor)) else (q, Failure(IndexOutOfBounds(cursor)))
  }

  // ---------------------------------------------------------------- properties

  /** The first request of a pool fills it with blank documents shaped after that request's record. */
  lemma FirstRequestFills(size: nat, record: Entries)
    requires size > 0
    ensures var r := GetDocument(NewPool(size).value, record);
            |r.0.docs| == size && forall k :: 0 <= k < size ==> r.0.docs[k] == Blank(record)
  {
  }

  /** The first document handed out is the one in slot 1 (slot 0 for a pool of one). */
  lemma FirstSlot(size: nat, record: Entries)
    requires size > 0
    ensures GetDocument(NewPool(size).value, record).1 == Success(1 % size)
  {
  }

  /** Each request hands out the slot after the previous one, modulo the size. */
  lemma RoundRobinStep(p: Pool, record: Entries)
    requires Valid(p) && p.size > 0
    ensures GetDocument(p, record).1 == Success((p.cursor + 1) % p.size)
  {
  }

  /** A pool of size 0 throws on every request, at the index its cursor moved to. */
  lemma EmptyPoolThrows(p: Pool, record: Entries)
    requires Valid(p) && p.size == 0
    ensures GetDocument(p, record).1 == Failure(IndexOutOfBounds(p.cursor + 1))
    ensures GetDocument(p, record).0.cursor == p.cursor + 1
  {
  }

  /** The slots handed out by n successive requests, each request with its own record. */
  function Slots(p: Pool, records: seq<Entries>): (r: seq<nat>)
    requires Valid(p) && p.size > 0
    ensures |r| == |records|
    ensures forall i :: 0 <= i < |r| ==> r[i] < p.size
    decreases |records|
  {
    if records == [] then []
    else
      var g := GetDocument(p, records[0]);
      [g.1.value] + Slots(g.0, records[1..])
  }

  /** Slot number i (from 0) handed out after `cursor`, written without `%`. */
  function Nth(cursor: nat, i: nat, size: nat): nat
    requires cursor < size && i < size
  {
    if cursor + 1 + i < size then cursor + 1 + i else cursor + 1 + i - size
  }

  lemma {:induction false} SlotsAreNth(p: Pool, records: seq<Entries>)
    requires Valid(p) && p.size > 0 && |records| <= p.size
    ensures forall i :: 0 <= i < |records| ==> Slots(p, records)[i] == Nth(p.cursor, i, p.size)
    decreases |records|
  {
    if records != [] {
      var g := GetDocument(p, records[0]);
      var rest := Slots(g.0, records[1..]);
      SlotsAreNth(g.0, records[1..]);
      assert g.0.cursor == Nth(p.cursor, 0, p.size);
      assert Slots(p, records) == [g.0.cursor] + rest;
      forall i | 1 <= i < |records| ensures Slots(p, records)[i] == Nth(p.cursor, i, p.size) {
        assert Slots(p, records)[i] == rest[i - 1];
        NthShift(p.cursor, i, p.size);
      }
    }
  }

  /** The i-th slot after `cursor` is the (i - 1)-th after the first one. */
  lemma NthShift(cursor: nat, i: nat, size: nat)
    requires cursor < size && 0 < i < size
    ensures Nth(Nth(cursor, 0, size), i - 1, size) == Nth(cursor, i, size)
  {
  }

  /**
   * Fairness of the round robin: `size` successive requests hand out every
   * slot of the pool exactly once.
   */
  lemma CycleVisitsEverySlotOnce(p: Pool, records: seq<Entries>)
    requires Valid(p) && p.size > 0 && |records| == p.size
    ensures forall i, j :: 0 <= i < j < |records| ==> Slots(p, records)[i] != Slots(p, records)[j]
    ensures forall s :: 0 <= s < p.size ==> s in Slots(p, records)
  {
    var slots := Slots(p, records);
    SlotsAreNth(p, records);
    forall s | 0 <= s < p.size ensures s in slots {
      var i := if s > p.cursor then s - p.cursor - 1 else s + p.size - p.cursor - 1;
      assert slots[i] == s;
    }
  }
}
