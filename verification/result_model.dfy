/**
 * LuceneResultModel: the search hits as a table, one row per document and
 * one column per key of the field map given at construction.
 */
module ResultModel {
  import opened Wrappers
  import opened JavaLang
  import opened Documents

  /** The documents, and the column names copied from the field map's key set. */
  datatype TableModel = TableModel(docs: seq<Document>, columns: seq<string>)

  /** The constructor: the column list is a copy of the keys, in the map's iteration order. */
  function New(docs: seq<Document>, fields: Entries): (m: TableModel)
    ensures RowCount(m) == |docs| && ColumnCount(m) == |fields|
    ensures forall j :: 0 <= j < |fields| ==> ColumnName(m, j) == Success(fields[j].0)
  {
    TableModel(docs, Keys(fields))
  }

  function RowCount(m: TableModel): nat
  {
    |m.docs|
  }

  function ColumnCount(m: TableModel): nat
  {
    |m.columns|
  }

  /** getColumnName: the j-th column's name; out of range throws. */
  function ColumnName(m: TableModel, j: int): (r: Result<string, Exception>)
    ensures r.Success? <==> 0 <= j < ColumnCount(m)
    ensures r.Failure? ==> r.error == IndexOutOfBounds(j)
  {
    if 0 <= j < |m.columns| then Success(m.columns[j]) else Failure(IndexOutOfBounds(j))
  }

  /**
   * getValueAt: the row is fetched first, then the column name, then the
   * document's first field of that name; a missing field yields null.
   */
  function ValueAt(m: TableModel, i: int, j: int): (r: Result<Option<string>, Exception>)
    ensures !(0 <= i < RowCount(m)) ==> r == Failure(IndexOutOfBounds(i))
    ensures 0 <= i < RowCount(m) && !(0 <= j < ColumnCount(m)) ==> r == Failure(IndexOutOfBounds(j))
    ensures r.Success? <==> 0 <= i < RowCount(m) && 0 <= j < ColumnCount(m)
  {
    if !(0 <= i < |m.docs|) then Failure(IndexOutOfBounds(i))
    else match ColumnName(m, j)
      case Failure(e) => Failure(e)
      case Success(name) => Success(ValueOf(m.docs[i], name))
  }

  /**
   * A cell holds null exactly when the row's document has no field named by
   * the column, and otherwise the value of the first such field.
   */
  lemma ValueAtCell(m: TableModel, i: nat, j: nat)
    requires i < RowCount(m) && j < ColumnCount(m)
    ensures ValueAt(m, i, j).value.None? <==> forall k :: 0 <= k < |m.docs[i]| ==> m.docs[i][k].name != m.columns[j]
    ensures ValueAt(m, i, j).value.Some? ==>
              exists k :: 0 <= k < |m.docs[i]| && m.docs[i][k].name == m.columns[j]
                          && ValueAt(m, i, j).value.value == m.docs[i][k].value
                          && forall k' :: 0 <= k' < k ==> m.docs[i][k'].name != m.columns[j]
  {
    var name := m.columns[j];
    match FindField(m.docs[i], name)
    case None =>
    case Some(k) =>
      assert m.docs[i][k].name == name;
  }

  /**
   * A document of the page whose fields carry distinct names shows each
   * field's value in the column of that name.
   */
  lemma ValueAtDistinct(m: TableModel, i: nat, j: nat, k: nat)
    requires i < RowCount(m) && j < ColumnCount(m) && k < |m.docs[i]|
    requires forall a, b :: 0 <= a < b < |m.docs[i]| ==> m.docs[i][a].name != m.docs[i][b].name
    requires m.docs[i][k].name == m.columns[j]
    ensures ValueAt(m, i, j) == Success(Some(m.docs[i][k].value))
  {
    FindFieldAt(m.docs[i], k);
  }
}
