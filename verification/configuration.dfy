/**
 * Configuration: the settings singleton. Its defaults, the overrides read
 * from the property file, the one-time creation of the instance, and the
 * stop-word set built once from the two built-in lists and the stop-word
 * file. The property file is given already parsed into a key/value map
 * (None when it cannot be read); whether a text is a valid double is a
 * parameter, since the value it parses to is not modelled.
 */
module Configuration {
  import opened Wrappers
  import opened JavaLang
  import opened LineSources

  datatype Operator = And | Or

  /** The settings the model keeps; stopWords is the memo of getStopWords (None is null). */
  datatype Config = Config(
    indexPath: string,
    suffixes: seq<string>,
    defaultField: string,
    operator: Operator,
    stopWords: Option<set<string>>)

  /** A freshly constructed instance: the field initialisers. */
  const Defaults: Config := Config("build/luceneIndex", ["csv"], "_ALL", Or, None)

  type Properties = map<string, string>

  const IndexPathKey: string := "index.path"
  const CpuMultiplierKey: string := "indexer.cpu.multiplier"
  const SuffixesKey: string := "indexer.filename.suffixes"
  const FieldKey: string := "search.default.field"
  const OperatorKey: string := "search.default.operator"

  /** Properties.getProperty(key, fallback). */
  function GetProperty(props: Properties, key: string, fallback: string): (v: string)
    ensures key in props ==> v == props[key]
    ensures key !in props ==> v == fallback
  {
    if key in props then props[key] else fallback
  }

  /**
   * load: read the file (None: it cannot be opened or read, which throws
   * IOException before any change). Then, in order: the index path (kept
   * when absent); the CPU multiplier, whose value must parse as a double or
   * NumberFormatException escapes; the suffixes, comma-split when present;
   * the default field (kept when absent); the operator, AND when the value
   * equals "AND" ignoring case and OR otherwise, and a null dereference
   * when the key is absent. Fields set before an exception keep their new
   * values.
   */
  function Load(c: Config, file: Option<Properties>, isDouble: string -> bool): (r: (Config, Option<Exception>))
    ensures file.None? ==> r == (c, Some(IOException))
    ensures r.1.None? <==> file.Some? && OperatorKey in file.value
                           && (CpuMultiplierKey in file.value ==> isDouble(file.value[CpuMultiplierKey]))
    ensures file.Some? && CpuMultiplierKey in file.value && !isDouble(file.value[CpuMultiplierKey]) ==>
              r.1 == Some(NumberFormat(file.value[CpuMultiplierKey])) && r.0 == c.(indexPath := r.0.indexPath)
    ensures r.0.stopWords == c.stopWords
  {
    match file
    case None => (c, Some(IOException))
    case Some(props) =>
      var c1 := c.(indexPath := GetProperty(props, IndexPathKey, c.indexPath));
      if CpuMultiplierKey in props && !isDouble(props[CpuMultiplierKey]) then
        (c1, Some(NumberFormat(props[CpuMultiplierKey])))
      else
        var c2 := if SuffixesKey in props then c1.(suffixes := SplitComma(props[SuffixesKey])) else c1;
        var c3 := c2.(defaultField := GetProperty(props, FieldKey, c2.defaultField));
        if OperatorKey !in props then (c3, Some(NullPointer))
        else (c3.(operator := if EqualsIgnoreCase(props[OperatorKey], "AND") then And else Or), None)
  }

  /** Without a readable property file the settings are the field initialisers: path, suffix list, field and operator. */
  lemma UnreadableFileDefaults(isDouble: string -> bool)
    ensures var c := GetInstance(None, None, isDouble).1;
            && c.Success?
            && c.value.indexPath == "build/luceneIndex"
            && c.value.suffixes == ["csv"]
            && c.value.defaultField == "_ALL"
            && c.value.operator == Or
            && c.value.stopWords.None?
  {
  }

  /**
   * getInstance: the first call creates the instance, stores it, and loads
   * it; an IOException is logged and the defaults stay; any other exception
   * escapes, but the instance, partly loaded, is already stored. Later calls
   * return the stored instance. `instance` is the static field.
   */
  function GetInstance(instance: Option<Config>, file: Option<Properties>, isDouble: string -> bool)
    : (r: (Option<Config>, Result<Config, Exception>))
    ensures r.0.Some?
    ensures instance.Some? ==> r == (instance, Success(instance.value))
    ensures r.1.Success? ==> r.1.value == r.0.value
    ensures instance.None? && file.None? ==> r.1 == Success(Defaults)
  {
    match instance
    case Some(c) => (instance, Success(c))
    case None =>
      var (c, e) := Load(Defaults, file, isDouble);
      match e
      case None => (Some(c), Success(c))
      case Some(IOException) => (Some(c), Success(c))
      case Some(other) => (Some(c), Failure(other))
  }

  // ---------------------------------------------------------------- properties of load

  /** Absent keys keep the current values; present ones replace them. */
  lemma LoadKeepsAbsent(c: Config, props: Properties, isDouble: string -> bool)
    requires OperatorKey in props && (CpuMultiplierKey in props ==> isDouble(props[CpuMultiplierKey]))
    ensures var c' := Load(c, Some(props), isDouble).0;
            && (IndexPathKey !in props ==> c'.indexPath == c.indexPath)
            && (SuffixesKey !in props ==> c'.suffixes == c.suffixes)
            && (FieldKey !in props ==> c'.defaultField == c.defaultField)
            && (IndexPathKey in props ==> c'.indexPath == props[IndexPathKey])
            && (FieldKey in props ==> c'.defaultField == props[FieldKey])
  {
  }

  /** The operator is AND exactly when the value spells "AND" in any case. */
  lemma OperatorIff(c: Config, props: Properties, isDouble: string -> bool)
    requires OperatorKey in props && (CpuMultiplierKey in props ==> isDouble(props[CpuMultiplierKey]))
    ensures Load(c, Some(props), isDouble).0.operator == And <==> Lower(props[OperatorKey]) == "and"
  {
    assert Lower("AND") == "and" by {
      assert Lower("AND") == [LowerChar('A')] + Lower("ND");
    }
  }

  /** The suffixes read are comma-free pieces that, joined with commas, give back the value up to trailing commas. */
  lemma SuffixesSplit(c: Config, props: Properties, isDouble: string -> bool)
    requires SuffixesKey in props && (CpuMultiplierKey in props ==> isDouble(props[CpuMultiplierKey]))
    ensures var s := Load(c, Some(props), isDouble).0.suffixes;
            && s == SplitComma(props[SuffixesKey])
            && (forall i :: 0 <= i < |s| ==> ',' !in s[i])
            && exists k: nat :: props[SuffixesKey] == Join(s) + Commas(k)
  {
    SplitCommaRoundTrip(props[SuffixesKey]);
  }

  /** Loading a file that loads cleanly a second time changes nothing: load is idempotent. */
  lemma LoadIdempotent(c: Config, props: Properties, isDouble: string -> bool)
    requires Load(c, Some(props), isDouble).1.None?
    ensures Load(Load(c, Some(props), isDouble).0, Some(props), isDouble) == Load(c, Some(props), isDouble)
  {
  }

  /** A file without the operator key fails with a null dereference after path, suffixes and field are set. */
  lemma MissingOperator(c: Config, props: Properties, isDouble: string -> bool)
    requires OperatorKey !in props && (CpuMultiplierKey in props ==> isDouble(props[CpuMultiplierKey]))
    ensures var (c', e) := Load(c, Some(props), isDouble);
            && e == Some(NullPointer)
            && c'.operator == c.operator
            && c'.indexPath == GetProperty(props, IndexPathKey, c.indexPath)
            && c'.defaultField == GetProperty(props, FieldKey, c.defaultField)
            && (SuffixesKey in props ==> c'.suffixes == SplitComma(props[SuffixesKey]))
  {
  }

  // ---------------------------------------------------------------- properties of getInstance

  /** The instance is created once: every later call returns it, whatever the file then holds. */
  lemma InstanceOnce(file: Option<Properties>, file': Option<Properties>, isDouble: string -> bool)
    ensures var (inst, _) := GetInstance(None, file, isDouble);
            GetInstance(inst, file', isDouble) == (inst, Success(inst.value))
  {
  }

  /**
   * A file without the operator key makes the first call throw; the second
   * call then returns the half-loaded instance, with the default operator.
   */
  lemma HalfLoadedInstance(props: Properties, isDouble: string -> bool)
    requires OperatorKey !in props && (CpuMultiplierKey in props ==> isDouble(props[CpuMultiplierKey]))
    ensures var (inst, r) := GetInstance(None, Some(props), isDouble);
            && r == Failure(NullPointer)
            && inst.value.operator == Or
            && inst.value.indexPath == GetProperty(props, IndexPathKey, "build/luceneIndex")
            && GetInstance(inst, Some(props), isDouble).1 == Success(inst.value)
  {
  }

  // ---------------------------------------------------------------- stop words

  /** The lines of a stop-word file up to its end or its first read error. */
  function ReadableLines(outcomes: seq<ReadOutcome>): seq<string>
  {
    if outcomes == [] || outcomes[0] == ReadFails then []
    else [outcomes[0].text] + ReadableLines(outcomes[1..])
  }

  /** The readable lines are the texts of the outcomes before the first failure, and all of them when none fails. */
  lemma {:induction false} ReadableLinesPrefix(outcomes: seq<ReadOutcome>)
    ensures var r := ReadableLines(outcomes);
            && |r| <= |outcomes|
            && (forall i :: 0 <= i < |r| ==> outcomes[i] == Line(r[i]))
            && (|r| < |outcomes| ==> outcomes[|r|] == ReadFails)
    decreases |outcomes|
  {
    if outcomes != [] && outcomes[0] != ReadFails {
      ReadableLinesPrefix(outcomes[1..]);
    }
  }

  /**
   * The reference stop-word set. A case-insensitive CharArraySet stores its
   * entries lower-cased: the built-in lists, and each readable line trimmed.
   * A file that cannot be opened adds nothing.
   */
  function StopWordSet(standard: seq<string>, english: seq<string>, file: Option<seq<ReadOutcome>>): set<string>
  {
    Lowered(standard + english) + TrimmedLowered(if file.Some? then ReadableLines(file.value) else [])
  }

  /** CharArraySet.contains with ignoreCase: the word lower-cased is stored. */
  predicate Contains(words: set<string>, w: string)
  {
    Lower(w) in words
  }

  /** A word is a stop word exactly when a built-in entry or a readable trimmed line equals it ignoring case. */
  lemma StopWordMembership(standard: seq<string>, english: seq<string>, file: Option<seq<ReadOutcome>>, w: string)
    ensures Contains(StopWordSet(standard, english, file), w) <==>
              (exists x :: x in standard + english && EqualsIgnoreCase(x, w))
              || (file.Some? && exists t :: t in ReadableLines(file.value) && EqualsIgnoreCase(Trim(t), w))
  {
    LowerIdempotent(w);
    forall x | EqualsIgnoreCase(x, w) ensures Lower(x) == Lower(w) {
    }
    if Contains(StopWordSet(standard, english, file), w) {
      var lw := Lower(w);
      if lw in Lowered(standard + english) {
        var x :| x in standard + english && Lower(x) == lw;
        LowerIdempotent(x);
        assert EqualsIgnoreCase(x, w);
      } else {
        var t :| t in ReadableLines(file.value) && Lower(Trim(t)) == lw;
        LowerIdempotent(Trim(t));
        assert EqualsIgnoreCase(Trim(t), w);
      }
    }
  }

  /** The entries a list of words adds to a case-insensitive set. */
  function Lowered(ws: seq<string>): set<string>
  {
    set w | w in ws :: Lower(w)
  }

  /** The entries a list of stop-word lines adds: each line trimmed, lower-cased. */
  function TrimmedLowered(ts: seq<string>): set<string>
  {
    set t | t in ts :: Lower(Trim(t))
  }

  lemma LoweredSnoc(ws: seq<string>, w: string)
    ensures Lowered(ws + [w]) == Lowered(ws) + {Lower(w)}
  {
    assert forall x :: x in ws + [w] <==> x in ws || x == w;
  }

  lemma TrimmedLoweredSnoc(ts: seq<string>, t: string)
    ensures TrimmedLowered(ts + [t]) == TrimmedLowered(ts) + TrimmedLowered([t])
  {
    assert forall x :: x in ts + [t] <==> x in ts || x in [t];
  }

  /** CharArraySet.addAll over a list of words, one add at a time. */
  method AddAll(words: set<string>, ws: seq<string>) returns (words': set<string>)
    ensures words' == words + Lowered(ws)
  {
    words' := words;
    var i := 0;
    while i < |ws|
      invariant 0 <= i <= |ws|
      invariant words' == words + Lowered(ws[..i])
    {
      assert ws[..i + 1] == ws[..i] + [ws[i]];
      LoweredSnoc(ws[..i], ws[i]);
      words' := words' + {Lower(ws[i])};
      i := i + 1;
    }
    assert ws[..i] == ws;
  }

  /**
   * The read loop over the stop-word file: each line trimmed is added until
   * readLine returns null or throws; the IOException is logged and the words
   * added so far stay.
   */
  method AddFileLines(words: set<string>, content: seq<ReadOutcome>) returns (words': set<string>)
    ensures words' == words + TrimmedLowered(ReadableLines(content))
  {
    words' := words;
    var s := Stream(content, false);
    ghost var read: seq<string> := [];
    var done := false;
    while !done
      invariant !s.closed
      invariant done ==> read == ReadableLines(content)
      invariant !done ==> read + ReadableLines(s.pending) == ReadableLines(content)
      invariant words' == words + TrimmedLowered(read)
      decreases |s.pending|, !done
    {
      var r := ReadLine(s);
      var line := r.1;
      if line.Success? && line.value.Some? {
        var t := line.value.value;
        assert s.pending != [] && s.pending[0] == Line(t);
        ReadableStep(content, s.pending, read);
        AddLineStep(words, words', read, t);
        words' := words' + TrimmedLowered([t]);
        read := read + [t];
      } else {
        ReadableEnd(s.pending);
        done := true;
      }
      s := r.0;
    }
  }

  /** Reading one more line moves it from the pending outcomes to the lines read. */
  lemma ReadableStep(content: seq<ReadOutcome>, p: seq<ReadOutcome>, read: seq<string>)
    requires p != [] && p[0].Line?
    requires read + ReadableLines(p) == ReadableLines(content)
    ensures (read + [p[0].text]) + ReadableLines(p[1..]) == ReadableLines(content)
  {
    assert ReadableLines(p) == [p[0].text] + ReadableLines(p[1..]);
    assert (read + [p[0].text]) + ReadableLines(p[1..]) == read + ReadableLines(p);
  }

  /** Adding the trimmed, lower-cased form of one more line keeps the set in step with the lines read. */
  lemma AddLineStep(words: set<string>, acc: set<string>, read: seq<string>, t: string)
    requires acc == words + TrimmedLowered(read)
    ensures acc + TrimmedLowered([t]) == words + TrimmedLowered(read + [t])
  {
    TrimmedLoweredSnoc(read, t);
  }

  lemma ReadableEnd(p: seq<ReadOutcome>)
    requires p == [] || p[0] == ReadFails
    ensures ReadableLines(p) == []
  {
  }

  /**
   * buildStopWords: a new set, both built-in lists, then every line of the
   * file trimmed; a file that cannot be opened is logged and adds nothing.
   */
  method BuildStopWords(standard: seq<string>, english: seq<string>, file: Option<seq<ReadOutcome>>)
    returns (words: set<string>)
    ensures words == StopWordSet(standard, english, file)
  {
    words := AddAll({}, standard);
    words := AddAll(words, english);
    assert Lowered(standard) + Lowered(english) == Lowered(standard + english) by {
      assert forall x :: x in standard + english <==> x in standard || x in english;
    }
    if file.Some? {
      words := AddFileLines(words, file.value);
    }
  }

  /**
   * getStopWords: build the set on the first call and keep it in the
   * instance; later calls return the kept set and read nothing.
   */
  method GetStopWords(c: Config, standard: seq<string>, english: seq<string>, file: Option<seq<ReadOutcome>>)
    returns (c': Config, words: set<string>)
    ensures c'.stopWords == Some(words)
    ensures c.stopWords.Some? ==> c' == c && words == c.stopWords.value
    ensures c.stopWords.None? ==> c' == c.(stopWords := Some(words)) && words == StopWordSet(standard, english, file)
  {
    match c.stopWords
    case Some(ws) =>
      c', words := c, ws;
    case None =>
      words := BuildStopWords(standard, english, file);
      c' := c.(stopWords := Some(words));
  }
}
