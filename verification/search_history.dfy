/**
 * SearchHistory: the most recent distinct queries, oldest first, at most
 * fifteen of them.
 */
module SearchHistory {
  import opened Wrappers
  import opened JavaLang

  const MaxHistorySize: nat := 15

  /** List.indexOf: the position of the first occurrence of q, or None for -1. */
  function IndexOf(h: seq<string>, q: string): (r: Option<nat>)
    ensures r.None? <==> q !in h
    ensures r.Some? ==> r.value < |h| && h[r.value] == q && q !in h[..r.value]
  {
    if h == [] then None
    else if h[0] == q then Some(0)
    else match IndexOf(h[1..], q)
      case None => None
      case Some(i) =>
        assert h[..i + 1] == [h[0]] + h[1..][..i];
        Some(i + 1)
  }

  /** The list with the element at position i removed (List.remove(int)). */
  function RemoveAt(h: seq<string>, i: nat): (r: seq<string>)
    requires i < |h|
    ensures |r| == |h| - 1
  {
    h[..i] + h[i + 1..]
  }

  /** The list as addQuery sees it after evicting the oldest entry of a full history. */
  function Evict(h: seq<string>): (r: seq<string>)
    ensures |h| >= MaxHistorySize ==> r == h[1..]
    ensures |h| < MaxHistorySize ==> r == h
  {
    if |h| >= MaxHistorySize then h[1..] else h
  }

  /**
   * addQuery: a full history first loses its oldest entry; then an earlier
   * occurrence of the query is removed; the query is appended as newest.
   */
  function AddQuery(h: seq<string>, q: string): (r: seq<string>)
    ensures |r| > 0 && r[|r| - 1] == q
    ensures forall x :: x in r <==> x == q || x in Evict(h)
  {
    var h1 := Evict(h);
    var h2 := match IndexOf(h1, q)
      case None => h1
      case Some(i) => RemoveAt(h1, i);
    assert forall x :: x != q ==> (x in h2 <==> x in h1) by {
      if IndexOf(h1, q).Some? {
        var i := IndexOf(h1, q).value;
        assert h1 == h1[..i] + [h1[i]] + h1[i + 1..];
      }
    }
    h2 + [q]
  }

  /** previousQuery: the newest entry; on an empty history list.get(-1) throws. */
  function PreviousQuery(h: seq<string>): (r: Result<string, Exception>)
    ensures r.Failure? <==> h == []
    ensures r.Failure? ==> r.error == IndexOutOfBounds(-1)
  {
    if h == [] then Failure(IndexOutOfBounds(-1)) else Success(h[|h| - 1])
  }

  predicate Distinct(h: seq<string>)
  {
    forall i, j :: 0 <= i < j < |h| ==> h[i] != h[j]
  }

  // ---------------------------------------------------------------- properties

  /** The query just added is what previousQuery returns. */
  lemma PreviousIsLatest(h: seq<string>, q: string)
    ensures PreviousQuery(AddQuery(h, q)) == Success(q)
  {
  }

  /** The size bound: a history of at most fifteen entries stays so. */
  lemma {:induction false} Bounded(h: seq<string>, q: string)
    requires |h| <= MaxHistorySize
    ensures |AddQuery(h, q)| <= MaxHistorySize
    ensures |AddQuery(h, q)| >= |Evict(h)|
  {
    var h1 := Evict(h);
    assert |h1| < MaxHistorySize || |h| == 0;
  }

  /** A full history that already holds the query (other than as its oldest entry) shrinks to fourteen. */
  lemma ShrinksWhenFullAndPresent(h: seq<string>, q: string)
    requires |h| == MaxHistorySize && q in h[1..]
    ensures |AddQuery(h, q)| == MaxHistorySize - 1
  {
  }

  /** Distinct entries stay distinct, and the query then occurs exactly once. */
  lemma StaysDistinct(h: seq<string>, q: string)
    requires Distinct(h)
    ensures Distinct(AddQuery(h, q))
    ensures forall i :: 0 <= i < |AddQuery(h, q)| - 1 ==> AddQuery(h, q)[i] != q
  {
    var h1 := Evict(h);
    assert Distinct(h1);
    match IndexOf(h1, q)
    case None =>
      SnocDistinct(h1, q);
    case Some(i) =>
      RemoveAtDistinct(h1, i);
      SnocDistinct(RemoveAt(h1, i), q);
  }

  /** Removing the entry at i from a duplicate-free list keeps it so, and its value no longer occurs. */
  lemma RemoveAtDistinct(h: seq<string>, i: nat)
    requires i < |h| && Distinct(h)
    ensures Distinct(RemoveAt(h, i)) && h[i] !in RemoveAt(h, i)
  {
    var r := RemoveAt(h, i);
    forall a | 0 <= a < |r| ensures r[a] != h[i] && r[a] == h[if a < i then a else a + 1] {
      if a < i {
        assert r[a] == h[a];
      } else {
        assert r[a] == h[a + 1];
      }
    }
  }

  /** Appending a value absent from a duplicate-free list keeps it so; the value then occurs only last. */
  lemma SnocDistinct(h: seq<string>, q: string)
    requires Distinct(h) && q !in h
    ensures Distinct(h + [q])
    ensures forall i :: 0 <= i < |h| ==> (h + [q])[i] != q
  {
    assert forall i :: 0 <= i < |h| ==> (h + [q])[i] == h[i];
  }

  // ---------------------------------------------------------------- order of the survivors

  /** `a` is a subsequence of `b`: it is `b` with some entries left out, in the same order. */
  predicate IsSubseq(a: seq<string>, b: seq<string>)
    decreases |b|
  {
    if a == [] then true
    else if b == [] then false
    else (a[0] == b[0] && IsSubseq(a[1..], b[1..])) || IsSubseq(a, b[1..])
  }

  lemma {:induction false} SubseqRefl(s: seq<string>)
    ensures IsSubseq(s, s)
    decreases |s|
  {
    if s != [] {
      SubseqRefl(s[1..]);
    }
  }

  lemma {:induction false} SubseqTrans(a: seq<string>, b: seq<string>, c: seq<string>)
    requires IsSubseq(a, b) && IsSubseq(b, c)
    ensures IsSubseq(a, c)
    decreases |c|
  {
    if a != [] {
      if b[0] == c[0] && IsSubseq(b[1..], c[1..]) {
        if a[0] == b[0] && IsSubseq(a[1..], b[1..]) {
          SubseqTrans(a[1..], b[1..], c[1..]);
        } else {
          SubseqTrans(a, b[1..], c[1..]);
        }
      } else {
        SubseqTrans(a, b, c[1..]);
      }
    }
  }

  /** Leaving out the entry at position i keeps the rest in order. */
  lemma {:induction false} SubseqRemoveAt(s: seq<string>, i: nat)
    requires i < |s|
    ensures IsSubseq(RemoveAt(s, i), s)
    decreases i
  {
    var r := RemoveAt(s, i);
    if i == 0 {
      assert r == s[1..];
      SubseqRefl(s[1..]);
      if r != [] {
        assert IsSubseq(r, s[1..]);
      }
    } else {
      assert r[0] == s[0];
      assert r[1..] == RemoveAt(s[1..], i - 1);
      SubseqRemoveAt(s[1..], i - 1);
    }
  }

  /**
   * The entries that survive keep their relative order: the history after
   * addQuery, without its newest entry, is a subsequence of the history before.
   */
  lemma OrderKept(h: seq<string>, q: string)
    ensures var r := AddQuery(h, q); IsSubseq(r[..|r| - 1], h)
  {
    var h1 := Evict(h);
    var r := AddQuery(h, q);
    SubseqRefl(h);
    if |h| >= MaxHistorySize {
      SubseqRemoveAt(h, 0);
      assert RemoveAt(h, 0) == h1;
    }
    assert IsSubseq(h1, h);
    match IndexOf(h1, q)
    case None =>
      assert r[..|r| - 1] == h1;
    case Some(i) =>
      SubseqRemoveAt(h1, i);
      assert r[..|r| - 1] == RemoveAt(h1, i);
      SubseqTrans(r[..|r| - 1], h1, h);
  }

  /** Histories reached from the empty one by adding queries: bounded and duplicate-free. */
  function AddAll(h: seq<string>, queries: seq<string>): seq<string>
    decreases |queries|
  {
    if queries == [] then h else AddAll(AddQuery(h, queries[0]), queries[1..])
  }

  lemma {:induction false} Reachable(h: seq<string>, queries: seq<string>)
    requires |h| <= MaxHistorySize && Distinct(h)
    ensures |AddAll(h, queries)| <= MaxHistorySize && Distinct(AddAll(h, queries))
    decreases |queries|
  {
    if queries != [] {
      Bounded(h, queries[0]);
      StaysDistinct(h, queries[0]);
      Reachable(AddQuery(h, queries[0]), queries[1..]);
    }
  }
}
