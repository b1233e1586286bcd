/**
 * A Lucene Document as the modelled code uses it: an ordered list of named
 * fields, looked up by name (first match) and cleared by name.
 */
module Documents {
  import opened Wrappers
  import opened JavaLang

  /** TextField (analysed) or StringField (indexed as a single token). */
  datatype FieldKind = Text | Str

  /** A field: its name, its string value, its class and whether it is stored (Store.YES). */
  datatype Field = Field(name: string, value: string, kind: FieldKind, stored: bool)

  type Document = seq<Field>

  /** A Java Map<String, String> listed in its iteration order. */
  type Entries = seq<(string, string)>

  /** Name of the catch-all field that collects the tokens of every header value. */
  const CatchAll: string := "_ALL"

  predicate DistinctKeys(e: Entries)
  {
    forall i, j :: 0 <= i < j < |e| ==> e[i].0 != e[j].0
  }

  function Keys(e: Entries): (ks: seq<string>)
    ensures |ks| == |e|
    ensures forall i :: 0 <= i < |e| ==> ks[i] == e[i].0
  {
    seq(|e|, i requires 0 <= i < |e| => e[i].0)
  }

  predicate DistinctNames(names: seq<string>)
  {
    forall i, j :: 0 <= i < j < |names| ==> names[i] != names[j]
  }

  /** No field of `doc` is a catch-all field. */
  predicate NoCatchAll(doc: Document)
  {
    forall k :: 0 <= k < |doc| ==> doc[k].name != CatchAll
  }

  /** Every field of `doc` is an unstored catch-all TextField. */
  predicate AllCatchAll(doc: Document)
  {
    forall k :: 0 <= k < |doc| ==> doc[k].name == CatchAll && doc[k].kind == Text && !doc[k].stored
  }

  /** Same number of fields, with the same names, classes and storage, position by position. */
  predicate SameShape(a: Document, b: Document)
  {
    && |a| == |b|
    && forall k :: 0 <= k < |a| ==> a[k].name == b[k].name && a[k].kind == b[k].kind && a[k].stored == b[k].stored
  }

  lemma SameShapeTrans(a: Document, b: Document, c: Document)
    requires SameShape(a, b) && SameShape(b, c)
    ensures SameShape(a, c)
  {
  }

  /** A partly updated buffer and the exception that stopped the update, if any. */
  datatype Progress = Progress(doc: Document, error: Option<Exception>)

  // ---------------------------------------------------------------- getField

  /** Document.getField: the position of the first field called `name`, or null. */
  function FindField(doc: Document, name: string): (r: Option<nat>)
    ensures r.Some? ==> r.value < |doc| && doc[r.value].name == name
    ensures r.Some? ==> forall k :: 0 <= k < r.value ==> doc[k].name != name
    ensures r.None? ==> forall k :: 0 <= k < |doc| ==> doc[k].name != name
  {
    if doc == [] then None
    else if doc[0].name == name then Some(0)
    else match FindField(doc[1..], name)
      case None => None
      case Some(k) => Some(k + 1)
  }

  /** The value of the first field called `name`, as getField(name).stringValue() reads it. */
  function ValueOf(doc: Document, name: string): Option<string>
  {
    match FindField(doc, name)
    case None => None
    case Some(k) => Some(doc[k].value)
  }

  /**
   * getField(name) cast to the class `kind`: a field of the other class
   * raises ClassCastException; a missing field yields null.
   */
  function Lookup(doc: Document, name: string, kind: FieldKind): (r: Result<Option<nat>, Exception>)
    ensures r.Success? ==> r.value == FindField(doc, name)
    ensures r.Success? && r.value.Some? ==> doc[r.value.value].kind == kind
    ensures r.Failure? <==> FindField(doc, name).Some? && doc[FindField(doc, name).value].kind != kind
  {
    match FindField(doc, name)
    case None => Success(None)
    case Some(k) => if doc[k].kind == kind then Success(Some(k)) else Failure(ClassCast(name))
  }

  /** Field.setStringValue on the field at position `k`. */
  function SetValue(doc: Document, k: nat, value: string): (r: Document)
    requires k < |doc|
    ensures SameShape(r, doc)
  {
    doc[k := doc[k].(value := value)]
  }

  /** setStringValue changes the value of that one field and nothing else. */
  lemma SetValueWrites(doc: Document, k: nat, value: string)
    requires k < |doc|
    ensures SetValue(doc, k, value)[k] == doc[k].(value := value)
    ensures forall j :: 0 <= j < |doc| && j != k ==> SetValue(doc, k, value)[j] == doc[j]
  {
  }

  /** Documents whose fields carry the same names, position by position, find the same fields. */
  lemma FindFieldSameNames(a: Document, b: Document, name: string)
    requires |a| == |b| && forall k :: 0 <= k < |a| ==> a[k].name == b[k].name
    ensures FindField(a, name) == FindField(b, name)
  {
    if a != [] {
      FindFieldSameNames(a[1..], b[1..], name);
    }
  }

  /** `doc` has a first field called `name`, and it is of class `kind`. */
  predicate Serves(doc: Document, name: string, kind: FieldKind)
  {
    FindField(doc, name).Some? && doc[FindField(doc, name).value].kind == kind
  }

  /** Documents of the same shape serve the same names with the same classes. */
  lemma ServesSameShape(a: Document, b: Document, name: string, kind: FieldKind)
    requires SameShape(a, b)
    ensures Serves(a, name, kind) <==> Serves(b, name, kind)
  {
    FindFieldSameNames(a, b, name);
  }

  /** A field with no earlier namesake is the one getField finds. */
  lemma FindFieldAt(doc: Document, k: nat)
    requires k < |doc|
    requires forall j :: 0 <= j < k ==> doc[j].name != doc[k].name
    ensures FindField(doc, doc[k].name) == Some(k)
  {
  }

  /** Appending fields of other names does not change which field getField finds. */
  lemma {:induction false} FindFieldAppend(a: Document, b: Document, name: string)
    requires forall k :: 0 <= k < |b| ==> b[k].name != name
    ensures FindField(a + b, name) == FindField(a, name)
    decreases |a|
  {
    if a == [] {
      assert a + b == b;
    } else {
      assert (a + b)[1..] == a[1..] + b;
      FindFieldAppend(a[1..], b, name);
    }
  }

  /** Setting a value changes what ValueOf reads only for the name of the field set. */
  lemma ValueOfSetValue(doc: Document, k: nat, value: string, name: string)
    requires k < |doc|
    ensures doc[k].name == name && FindField(doc, name) == Some(k) ==> ValueOf(SetValue(doc, k, value), name) == Some(value)
    ensures doc[k].name != name ==> ValueOf(SetValue(doc, k, value), name) == ValueOf(doc, name)
  {
    FindFieldSameNames(SetValue(doc, k, value), doc, name);
  }

  // ---------------------------------------------------------------- removeFields

  /** Document.removeFields: drops every field called `name`, keeping the order of the rest. */
  function RemoveFields(doc: Document, name: string): (r: Document)
    ensures |r| <= |doc|
    ensures forall f :: f in r <==> f in doc && f.name != name
  {
    if doc == [] then []
    else (if doc[0].name == name then [] else [doc[0]]) + RemoveFields(doc[1..], name)
  }

  lemma {:induction false} RemoveFieldsAppend(a: Document, b: Document, name: string)
    ensures RemoveFields(a + b, name) == RemoveFields(a, name) + RemoveFields(b, name)
    decreases |a|
  {
    if a != [] {
      assert (a + b)[1..] == a[1..] + b;
      RemoveFieldsAppend(a[1..], b, name);
    } else {
      assert a + b == b;
    }
  }

  /** Removing a name no field carries changes nothing. */
  lemma {:induction false} RemoveFieldsAbsent(doc: Document, name: string)
    requires forall k :: 0 <= k < |doc| ==> doc[k].name != name
    ensures RemoveFields(doc, name) == doc
    decreases |doc|
  {
    if doc != [] {
      RemoveFieldsAbsent(doc[1..], name);
      assert doc == [doc[0]] + doc[1..];
    }
  }

  /** Removing the name every field carries leaves nothing. */
  lemma RemoveFieldsEvery(doc: Document, name: string)
    requires forall k :: 0 <= k < |doc| ==> doc[k].name == name
    ensures RemoveFields(doc, name) == []
  {
  }

  // ---------------------------------------------------------------- values by name

  /** The values of all fields called `name`, in document order. */
  function ValuesNamed(doc: Document, name: string): seq<string>
  {
    if doc == [] then []
    else (if doc[0].name == name then [doc[0].value] else []) + ValuesNamed(doc[1..], name)
  }

  lemma {:induction false} ValuesNamedAppend(a: Document, b: Document, name: string)
    ensures ValuesNamed(a + b, name) == ValuesNamed(a, name) + ValuesNamed(b, name)
    decreases |a|
  {
    if a != [] {
      assert (a + b)[1..] == a[1..] + b;
      ValuesNamedAppend(a[1..], b, name);
    } else {
      assert a + b == b;
    }
  }

  lemma {:induction false} ValuesNamedAbsent(doc: Document, name: string)
    requires forall k :: 0 <= k < |doc| ==> doc[k].name != name
    ensures ValuesNamed(doc, name) == []
    decreases |doc|
  {
    if doc != [] {
      ValuesNamedAbsent(doc[1..], name);
    }
  }
}
