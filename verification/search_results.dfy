/**
 * SearchResults: one page of hits for a query, an append-only list of
 * documents with the query, the total hit count and the page number it was
 * built with, and its rendering as HTML.
 */
module SearchResults {
  import opened Wrappers
  import opened JavaLang
  import opened Documents

  datatype Results = Results(query: string, total: int, page: int, docs: seq<Document>)

  /** The constructor: the query, total and page as given, and no documents yet. */
  function New(query: string, total: int, page: int): (r: Results)
    ensures r.query == query && r.total == total && r.page == page
    ensures Size(r) == 0
  {
    Results(query, total, page, [])
  }

  /** addDocument: appends; the query, total and page are untouched. */
  function AddDocument(r: Results, doc: Document): (r': Results)
    ensures r'.query == r.query && r'.total == r.total && r'.page == r.page
    ensures Size(r') == Size(r) + 1
    ensures forall i :: 0 <= i < Size(r) ==> GetDocument(r', i) == GetDocument(r, i)
    ensures GetDocument(r', Size(r)) == Success(doc)
  {
    r.(docs := r.docs + [doc])
  }

  function Size(r: Results): nat
  {
    |r.docs|
  }

  /** getDocument: the document at `index`, or IndexOutOfBoundsException. */
  function GetDocument(r: Results, index: int): (d: Result<Document, Exception>)
    ensures d.Success? <==> 0 <= index < Size(r)
    ensures d.Failure? ==> d.error == IndexOutOfBounds(index)
  {
    if 0 <= index < |r.docs| then Success(r.docs[index]) else Failure(IndexOutOfBounds(index))
  }

  /** Results built by adding `docs` one by one to a new result set hold exactly `docs`, in order. */
  function AddAll(r: Results, docs: seq<Document>): Results
    decreases |docs|
  {
    if docs == [] then r else AddAll(AddDocument(r, docs[0]), docs[1..])
  }

  lemma {:induction false} AddAllKeeps(r: Results, docs: seq<Document>)
    ensures var r' := AddAll(r, docs);
            && r'.query == r.query && r'.total == r.total && r'.page == r.page
            && Size(r') == Size(r) + |docs|
            && (forall i :: 0 <= i < Size(r) ==> GetDocument(r', i) == GetDocument(r, i))
            && (forall i :: 0 <= i < |docs| ==> GetDocument(r', Size(r) + i) == Success(docs[i]))
    decreases |docs|
  {
    if docs != [] {
      var r1 := AddDocument(r, docs[0]);
      AddAllKeeps(r1, docs[1..]);
      forall i | 1 <= i < |docs| ensures GetDocument(AddAll(r, docs), Size(r) + i) == Success(docs[i]) {
        assert docs[1..][i - 1] == docs[i];
      }
    }
  }

  // ---------------------------------------------------------------- HTML

  const FieldOpen: string := "<b><font color='blue'>"
  const FieldMid: string := "</font></b> : "
  const FieldClose: string := "<br/>"
  const BlockOpen: string := "<div>"
  const BlockClose: string := "</div><br/><hr/><br/>"

  /** One field: its name in bold blue, a colon, its value, a line break; nothing is escaped. */
  function FieldHtml(f: Field): string
  {
    FieldOpen + f.name + FieldMid + f.value + FieldClose
  }

  /** The fields of a document, in field order. */
  function FieldsHtml(fields: Document): string
    decreases |fields|
  {
    if fields == [] then "" else FieldsHtml(fields[..|fields| - 1]) + FieldHtml(fields[|fields| - 1])
  }

  /** One block per document. */
  function BlockHtml(d: Document): (s: string)
    ensures |s| >= |BlockOpen| + |BlockClose|
    ensures s[..|BlockOpen|] == BlockOpen
    ensures s[|s| - |BlockClose|..] == BlockClose
  {
    BlockOpen + FieldsHtml(d) + BlockClose
  }

  /** The reference rendering: the blocks of the documents, in insertion order. */
  function HtmlOf(docs: seq<Document>): string
    decreases |docs|
  {
    if docs == [] then "" else HtmlOf(docs[..|docs| - 1]) + BlockHtml(docs[|docs| - 1])
  }

  /** toHtml: a StringBuilder filled document by document, field by field. */
  method ToHtml(r: Results) returns (html: string)
    ensures html == HtmlOf(r.docs)
  {
    html := "";
    var i := 0;
    while i < Size(r)
      invariant 0 <= i <= Size(r)
      invariant html == HtmlOf(r.docs[..i])
    {
      var doc := GetDocument(r, i).value;
      html := html + BlockOpen;
      var j := 0;
      var block := "";
      while j < |doc|
        invariant 0 <= j <= |doc|
        invariant block == FieldsHtml(doc[..j])
      {
        block := block + FieldHtml(doc[j]);
        assert doc[..j + 1][..j] == doc[..j];
        j := j + 1;
      }
      assert doc[..j] == doc;
      html := html + block + BlockClose;
      assert r.docs[..i + 1][..i] == r.docs[..i];
      i := i + 1;
    }
    assert r.docs[..i] == r.docs;
  }

  /** Rendering is a homomorphism: the page of a + b is the page of a followed by that of b. */
  lemma {:induction false} HtmlOfAppend(a: seq<Document>, b: seq<Document>)
    ensures HtmlOf(a + b) == HtmlOf(a) + HtmlOf(b)
    decreases |b|
  {
    if b == [] {
      assert a + b == a;
    } else {
      var b' := b[..|b| - 1];
      assert (a + b)[..|a + b| - 1] == a + b';
      HtmlOfAppend(a, b');
    }
  }

  /** An empty result renders as the empty string, and only an empty one does. */
  lemma HtmlEmptyIff(docs: seq<Document>)
    ensures HtmlOf(docs) == "" <==> docs == []
  {
  }

  /** Adding a document appends exactly its block to the page. */
  lemma HtmlOfAdd(r: Results, doc: Document)
    ensures HtmlOf(AddDocument(r, doc).docs) == HtmlOf(r.docs) + BlockHtml(doc)
  {
    HtmlOfAppend(r.docs, [doc]);
  }

  /** Every document contributes one block: the page is at least one frame per document long. */
  lemma {:induction false} HtmlLength(docs: seq<Document>)
    ensures |HtmlOf(docs)| >= |docs| * (|BlockOpen| + |BlockClose|)
    decreases |docs|
  {
    var frame := |BlockOpen| + |BlockClose|;
    if docs != [] {
      var init := docs[..|docs| - 1];
      HtmlLength(init);
      assert |HtmlOf(docs)| == |HtmlOf(init)| + |BlockHtml(docs[|docs| - 1])|;
      assert |docs| == |init| + 1;
      assert |docs| * frame == |init| * frame + frame;
    }
  }

  /** The fields of a document render in field order: the rendering of a + b is that of a, then that of b. */
  lemma {:induction false} FieldsHtmlAppend(a: Document, b: Document)
    ensures FieldsHtml(a + b) == FieldsHtml(a) + FieldsHtml(b)
    decreases |b|
  {
    if b == [] {
      assert a + b == a;
    } else {
      var b' := b[..|b| - 1];
      var ab := a + b;
      var x := b[|b| - 1];
      assert ab[..|ab| - 1] == a + b';
      assert ab[|ab| - 1] == x;
      assert FieldsHtml(ab) == FieldsHtml(a + b') + FieldHtml(x);
      FieldsHtmlAppend(a, b');
      assert FieldsHtml(b) == FieldsHtml(b') + FieldHtml(x);
    }
  }
}
