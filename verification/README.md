# Csv2Lucene core, modelled in Dafny

Csv2Lucene loads the rows of delimited files into a Lucene index and serves
paged keyword searches over it from a small Swing window. This project
models the sequential logic between those two layers as immutable
datatypes and pure functions, and proves properties about it:

- **Document construction per worker.**
  - `RecordConsumer` builds a document from a header, a record and metadata. It creates the buffer on a worker's first record and overwrites it in place afterwards. The catch-all `_ALL` tokens are regenerated on every use.
  - `RecordThread` does the same for records given as maps, lower-casing and trimming every value.
  - `FlyweightPool` hands out pooled blank documents round robin.
  - The per-thread buffer (a `ThreadLocal` in the program) is an explicit `Option<Document>` that is passed in and returned.
- **Record readers.** `SimpleCsvReader` and `SimpleReader` are look-ahead iterators over the lines of a file.
  - The header is line 1 and one row is buffered ahead.
  - Lines are counted.
  - A `BufferedReader` is the sequence of outcomes its `readLine` calls will have: a line or an `IOException` (`LineSources`).
- **Search side.**
  - `SearchResults` is an append-only result set rendered to HTML.
  - `ResultModel` is the table view of a page of documents.
  - `SearchHistory` is the bounded, duplicate-free most-recently-used query list.
  - `SearchPane` holds the paging state behind the search bar.
  - `SearchListener` is the search action: it works out the query and page, drops blank queries, and handles success and error.
- **Configuration.** The settings singleton:
  - its defaults;
  - `load` from a property map;
  - the one-time `getInstance`;
  - the memoised stop-word set.

Shared modules:

| module | what it holds |
|---|---|
| `Wrappers` | `Option` and `Result` |
| `JavaLang` | the exceptions that escape and the `java.lang` pieces the code relies on: `toLowerCase`, `trim`, `equalsIgnoreCase`, `split(",")`, truncating `int` division |
| `Documents` | a Lucene document as an ordered field list, with `getField` and `removeFields` |
| `IndexWriterModel` | the shared writer: whether it is open, and the documents it accepted |
| `LineSources` | a `BufferedReader` as the outcomes of its coming `readLine` calls, and whether it is closed |
| `RecordIterator` | the fields both look-ahead readers share, and the operations they implement alike: `open` on a text blob, `hasNext`, `getFileName`, `close` |

How the program's behaviour maps onto the model:

- **Exceptions.** An exception that escapes a Java method is a `Failure` result, or an `Option<Exception>`. Any state changed before the throw is kept, just as the mutable Java objects keep it.
- **Inputs.** What foreign code decides is an input of the model:
  - the analyzer's tokens and the line splitting, as function parameters;
  - the outcome of `IndexWriter.addDocument`;
  - the searcher's answer;
  - the clipboard;
  - whether a text parses as a double.

## Model

| member | source | states |
|---|---|---|
| JavaLang.Trim | src/us/brianfeldman/lucene/Configuration.java:258 | the trimmed string is the part of the input left once the leading and trailing characters at or below U+0020 are dropped, and it neither starts nor ends with such a character |
| JavaLang.TrimEmptyIffAllSpace | src/us/brianfeldman/lucene/ui/listeners/SearchListener.java:89 | a query trims to nothing exactly when every character of it is a space or control character |
| JavaLang.TrimIdempotent | src/us/brianfeldman/lucene/Configuration.java:258 | trimming a trimmed line changes nothing |
| JavaLang.LowerNoUpper | src/us/brianfeldman/lucene/RecordThread.java:62 | a lower-cased value holds no capital letter, and lower-casing a capital-free value is the identity |
| JavaLang.Lower | src/us/brianfeldman/lucene/RecordThread.java:62 | `toLowerCase` keeps the length and maps each character on its own, the ASCII capitals to their small letters |
| JavaLang.EqualsIgnoreCase | src/us/brianfeldman/lucene/Configuration.java:211 | `equalsIgnoreCase` holds exactly for strings of equal length whose characters match position by position ignoring case |
| JavaLang.EqualsIgnoreCaseEquivalence | src/us/brianfeldman/lucene/Configuration.java:211 | ignoring case is reflexive, symmetric and transitive |
| JavaLang.SplitComma | src/us/brianfeldman/lucene/Configuration.java:206 | `split(",")` returns a comma-free string whole, and otherwise never ends with an empty piece |
| JavaLang.SplitCommaRoundTrip | src/us/brianfeldman/lucene/Configuration.java:206 | the pieces of `split(",")` hold no comma, and joining them with commas gives the input back up to trailing commas. A string without a comma is its own only piece; otherwise no empty piece is left at the end, so the commas lost are exactly the trailing ones |
| JavaLang.JavaDiv | src/us/brianfeldman/lucene/ui/SearchPane.java:191 | Java's `int` division truncates toward zero: the quotient times the divisor is the multiple of the divisor nearest the dividend on the side of zero, below it for a non-negative total and above it for a negative one |
| JavaLang.JavaDivVersusEuclid | src/us/brianfeldman/lucene/ui/SearchPane.java:191 | truncating and Euclidean division agree on non-negative dividends and on exact multiples, and otherwise the truncated quotient is one more |
| JavaLang.JavaDivMinusOne | src/us/brianfeldman/lucene/ui/SearchPane.java:191 | the two divisions differ: `-1 / 10` is 0 in Java and -1 in Euclidean division |
| Documents.FindField | src/us/brianfeldman/lucene/RecordConsumer.java:85 | `getField` finds the first field of that name, and none exactly when no field carries the name |
| Documents.Lookup | src/us/brianfeldman/lucene/RecordConsumer.java:85 | the cast after `getField` throws exactly when the first field of that name has the other field class; a missing field gives null |
| Documents.SetValue | src/us/brianfeldman/lucene/RecordConsumer.java:86 | `setStringValue` keeps the number of fields and every name, class and storage flag |
| Documents.SetValueWrites | src/us/brianfeldman/lucene/RecordConsumer.java:86 | `setStringValue` changes the value of that one field and leaves every other field as it was |
| Documents.RemoveFields | src/us/brianfeldman/lucene/RecordConsumer.java:83 | `removeFields` keeps exactly the fields not carrying the name |
| Documents.RemoveFieldsAppend | src/us/brianfeldman/lucene/RecordConsumer.java:83 | removing a name from a concatenation removes it from each part, in order |
| IndexWriterModel.AddDocument | src/us/brianfeldman/lucene/RecordThread.java:74 | an open writer that accepts the document appends it to what it holds. An open writer that refuses it throws `IllegalArgumentException` and keeps what it holds. A closed writer throws `AlreadyClosedException` |
| LineSources.ReadLine | src/us/brianfeldman/fileformat/csv/SimpleCSVReader.java:93 | `readLine` consumes one outcome, returns null at the end without consuming anything, and throws `IOException` once the reader is closed |
| LineSources.Close | src/us/brianfeldman/fileformat/csv/SimpleCSVReader.java:84-88 | closing the reader marks it closed and keeps the lines it had not read |
| RecordConsumer.CatchAllFields | src/us/brianfeldman/lucene/RecordConsumer.java:107-120 | one unstored catch-all TextField per token, holding the tokens in order |
| RecordConsumer.BuildLuceneDocument | src/us/brianfeldman/lucene/RecordConsumer.java:66-97 | a returned document is the worker's buffer, and a worker with a buffer keeps one even when the build throws. A record shorter than the header always fails. With a closed writer and a non-empty header the build always fails, since the first tokenization calls `getAnalyzer`; on first use it then stores no buffer. First use with a long enough record succeeds when the writer is open or the header is empty |
| RecordConsumer.SetHeaderValue | src/us/brianfeldman/lucene/RecordConsumer.java:85-86 | one reuse step up to tokenization: it succeeds exactly when the header name is absent or a TextField, the record has that column and the field exists, and then sets that field's value in place. A short record throws the index error of that column |
| RecordConsumer.ClosedWriterReuse | src/us/brianfeldman/lucene/RecordConsumer.java:82-109 | reuse on a closed writer always throws. The buffer then holds no catch-all field, keeps its shape, and changes at most the first header field. When that field is served and the record has a value, the exception is AlreadyClosed and the field holds the first value |
| RecordConsumer.AddToIndex | src/us/brianfeldman/lucene/RecordConsumer.java:125-140 | an I/O failure drops the document and leaves the writer open. An out-of-memory error closes the shared writer. The call throws exactly when the writer is already closed or refuses the document, the refusal escaping as `IllegalArgumentException` |
| RecordConsumer.Run | src/us/brianfeldman/lucene/RecordConsumer.java:143-149 | the document is built, with the writer's current state, before it is added. A build failure adds nothing and leaves the writer untouched. At most the built document is added, and a closed writer always makes the call throw |
| RecordConsumer.FreshHeaderTokens | src/us/brianfeldman/lucene/RecordConsumer.java:72-75 | on first use, for a header with no column named `_ALL`, the catch-all values are the tokens of the header values, in header order |
| RecordConsumer.FreshHeaderStored | src/us/brianfeldman/lucene/RecordConsumer.java:72-75 | on first use, for a header with no column named `_ALL`, exactly the catch-all fields are unstored |
| RecordConsumer.FirstUseLayout | src/us/brianfeldman/lucene/RecordConsumer.java:69-81 | with the writer open, for a header with no column named `_ALL` and no metadata key `_ALL`: without its catch-all fields, a first-use document is exactly one stored TextField per header position (name `header[i]`, value `record[i]`), then one stored StringField per metadata entry with key and value verbatim. Its catch-all values are the tokens of the header values, and only the catch-all fields are unstored |
| RecordConsumer.ReuseHeaderShape | src/us/brianfeldman/lucene/RecordConsumer.java:84-88 | the reuse loop over the header keeps the shape of the catch-all-free fields, and on success appends exactly the catch-all fields of the current values |
| RecordConsumer.ReuseHeaderKeeps | src/us/brianfeldman/lucene/RecordConsumer.java:84-88 | the reuse loop over the header leaves every field whose name it does not write as it was |
| RecordConsumer.ReuseHeaderWrites | src/us/brianfeldman/lucene/RecordConsumer.java:84-88 | with distinct header names, a successful loop leaves each column's value in the first field of that name |
| RecordConsumer.ReuseHeaderSucceeds | src/us/brianfeldman/lucene/RecordConsumer.java:84-88 | the loop does not throw when the buffer serves every header name as a TextField and the record is long enough |
| RecordConsumer.ReuseMetadataShape | src/us/brianfeldman/lucene/RecordConsumer.java:90-93 | the reuse loop over the metadata keeps the shape of the buffer and does not touch the catch-all fields |
| RecordConsumer.ReuseMetadataKeeps | src/us/brianfeldman/lucene/RecordConsumer.java:90-93 | the reuse loop over the metadata leaves every field whose name is not a metadata key as it was |
| RecordConsumer.ReuseMetadataWrites | src/us/brianfeldman/lucene/RecordConsumer.java:90-93 | with distinct keys, a successful loop leaves each metadata value, verbatim, in the first field of its key |
| RecordConsumer.ReuseMetadataSucceeds | src/us/brianfeldman/lucene/RecordConsumer.java:90-93 | the loop does not throw when the buffer serves every metadata key as a StringField |
| RecordConsumer.ReuseKeepsShape | src/us/brianfeldman/lucene/RecordConsumer.java:82-94 | for a header with no column named `_ALL`, reuse, whether it succeeds or throws half way, and whether the writer is open or closed, keeps the number, names, classes and storage of the non-catch-all fields |
| RecordConsumer.ReuseNoStaleTokens | src/us/brianfeldman/lucene/RecordConsumer.java:83-88 | with the writer open and a header with no column named `_ALL`, after a successful reuse the catch-all values are exactly the tokens of the current header values, in header order, whatever the buffer held, and every catch-all field is an unstored TextField |
| RecordConsumer.ReuseOverwrites | src/us/brianfeldman/lucene/RecordConsumer.java:82-94 | with the writer open and a header with no column named `_ALL`, a successful reuse puts each header value and each metadata value in place, and leaves every other non-catch-all field as it was |
| RecordConsumer.FirstUseFitsSchema | src/us/brianfeldman/lucene/RecordConsumer.java:69-81 | with the writer open, for a header with no column named `_ALL` and no metadata key `_ALL`, the first record of a worker lays down a buffer that serves its header names as TextFields and its metadata keys as StringFields |
| RecordConsumer.SchemaReuseSucceeds | src/us/brianfeldman/lucene/RecordConsumer.java:82-94 | with the writer open and a header with no column named `_ALL`, a buffer that fits the schema is reused without exception for any record at least as long as the header, and still fits afterwards |
| RecordConsumer.FreshHeaderFirst | src/us/brianfeldman/lucene/RecordConsumer.java:72-74 | on first use, whatever the column names, the first field laid down is the stored TextField of the first header column with the first value |
| RecordConsumer.CatchAllColumnFirstUse | src/us/brianfeldman/lucene/RecordConsumer.java:69-75 | on first use a first column named `_ALL` is kept: its value is stored under `_ALL` in the first field, ahead of the catch-all tokens, and is what `getField("_ALL")` finds |
| RecordConsumer.CatchAllColumnFirstReuse | src/us/brianfeldman/lucene/RecordConsumer.java:82-86 | on reuse, a first column named `_ALL` throws `NullPointerException` whatever the buffer held and whether the writer is open or not: `removeFields("_ALL")` has deleted the field `getField` looks for. The buffer is left without any `_ALL` field |
| RecordConsumer.ExtraValuesIgnored | src/us/brianfeldman/lucene/RecordConsumer.java:72-86 | only the first `header.length` values of a record are read: values past them change nothing, on first use and on reuse, with the writer open or closed |
| RecordThread.Normalize | src/us/brianfeldman/lucene/RecordThread.java:62 | the indexed form of a value is no longer than it, has no capital letter, and neither starts nor ends with a space |
| RecordThread.FreshFields | src/us/brianfeldman/lucene/RecordThread.java:58-64 | on first use, one stored StringField per record key, in the map's order |
| RecordThread.Refill | src/us/brianfeldman/lucene/RecordThread.java:65-70 | reuse never adds or removes a field, nor changes a name, class or storage, even when it throws half way |
| RecordThread.Add | src/us/brianfeldman/lucene/RecordThread.java:73-78 | an I/O failure of the write is swallowed. A closed writer, a refused document and an out-of-memory error escape. The buffer is appended exactly when the write succeeds |
| RecordThread.Run | src/us/brianfeldman/lucene/RecordThread.java:52-80 | the buffer is created on the first record, from that record, and keeps its shape on every later record. The writer gains at most this buffer |
| RecordThread.FirstUseValues | src/us/brianfeldman/lucene/RecordThread.java:58-64 | with distinct keys, the first buffer holds each value, lower-cased and trimmed, under its key as a StringField |
| RecordThread.NormalizeIdempotent | src/us/brianfeldman/lucene/RecordThread.java:62 | lower-casing then trimming an already indexed value changes nothing |
| RecordThread.RefillFailsIff | src/us/brianfeldman/lucene/RecordThread.java:66-69 | reuse throws exactly when some key of the record is missing from the buffer, or is there as a field of another class |
| RecordThread.RefillKeeps | src/us/brianfeldman/lucene/RecordThread.java:66-69 | reuse leaves every field whose name is not a key of the record as it was |
| RecordThread.RefillWrites | src/us/brianfeldman/lucene/RecordThread.java:66-69 | a successful reuse with distinct keys leaves each value, lower-cased and trimmed, under its key |
| RecordThread.RunOnSchema | src/us/brianfeldman/lucene/RecordThread.java:52-80 | a record whose keys are the worker's key set, in any map order, on an open writer that accepts it, is indexed with its own values, and the buffer still fits the key set |
| RecordThread.RunAll | src/us/brianfeldman/lucene/RecordThread.java:52-80 | the records one worker thread runs before its first exception: the writer keeps its documents and gains at most one per record, and it stays open or closed as it was |
| RecordThread.RunAllOnSchema | src/us/brianfeldman/lucene/RecordThread.java:52-80 | records that share one key set, each in any map order, run one after another on the same buffer, are all indexed in order, each with its own values: the reused buffer never leaks a value into another record's document |
| FlyweightPool.NewPool | src/us/brianfeldman/lucene/DocumentFlyweightPool.java:25-28 | a negative size is rejected by the list constructor; otherwise the pool starts empty with the given size |
| FlyweightPool.Blank | src/us/brianfeldman/lucene/DocumentFlyweightPool.java:35-42 | a blank document has one stored, empty StringField per key of the record, in the map's order |
| FlyweightPool.Populate | src/us/brianfeldman/lucene/DocumentFlyweightPool.java:49-54 | `size` blank documents are appended after whatever the pool holds |
| FlyweightPool.GetDocument | src/us/brianfeldman/lucene/DocumentFlyweightPool.java:64-76 | the pool keeps holding nothing or exactly `size` documents, and a full pool is never changed. A request succeeds exactly when the size is positive, and then returns a document of the pool at the new cursor |
| FlyweightPool.FirstRequestFills | src/us/brianfeldman/lucene/DocumentFlyweightPool.java:64-67 | the first request fills the pool with `size` blank documents shaped after that request's record |
| FlyweightPool.FirstSlot | src/us/brianfeldman/lucene/DocumentFlyweightPool.java:69-75 | the first request returns slot `1 mod size` |
| FlyweightPool.RoundRobinStep | src/us/brianfeldman/lucene/DocumentFlyweightPool.java:69-75 | each request returns the slot after the previous one, modulo the size |
| FlyweightPool.EmptyPoolThrows | src/us/brianfeldman/lucene/DocumentFlyweightPool.java:65-75 | with size 0 every request throws an index error, after the cursor has moved |
| FlyweightPool.Slots | src/us/brianfeldman/lucene/DocumentFlyweightPool.java:64-76 | every slot handed out by successive requests lies inside the pool |
| FlyweightPool.SlotsAreNth | src/us/brianfeldman/lucene/DocumentFlyweightPool.java:69-75 | the i-th of successive requests returns the i-th slot after the starting cursor, wrapping around |
| FlyweightPool.CycleVisitsEverySlotOnce | src/us/brianfeldman/lucene/DocumentFlyweightPool.java:69-75 | `size` successive requests return every slot of the pool exactly once |
| SimpleCsvReader.ReadRow | src/us/brianfeldman/fileformat/csv/SimpleCSVReader.java:90-107 | reading a row changes only the stream. An `IOException` never escapes from a reader opened on a file. The only exception is a null dereference: of a stream never opened, or of the file name when logging a read error on a text blob |
| SimpleCsvReader.Open | src/us/brianfeldman/fileformat/csv/SimpleCSVReader.java:55-64 | the file is remembered even when opening it fails. A file that cannot be opened throws `IOException`. An empty file throws a null dereference at the header split. A successful open reads a header and counts one more line |
| RecordIterator.OpenText | src/us/brianfeldman/fileformat/csv/SimpleCSVReader.java:67-71 | opening a text blob (the same in `SimpleReader`, lines 62-66) forgets the file and reads neither a header nor a row |
| RecordIterator.FileName | src/us/brianfeldman/fileformat/csv/SimpleCSVReader.java:79-81 | the file name is available exactly when the reader was opened on a file, and is then that file's name |
| RecordIterator.CloseReader | src/us/brianfeldman/fileformat/csv/SimpleCSVReader.java:84-88 | close (the same in `SimpleReader`, lines 79-83) closes the stream if there is one, and changes nothing else |
| RecordIterator.CloseIdempotent | src/us/brianfeldman/fileformat/csv/SimpleCSVReader.java:84-88 | closing twice is closing once, and closing keeps the unread lines |
| SimpleCsvReader.Next | src/us/brianfeldman/fileformat/csv/SimpleCSVReader.java:115-120 | `next` always counts a line, and returns the row that was buffered. On a reader opened on a file it never throws |
| SimpleCsvReader.OpenClean | src/us/brianfeldman/fileformat/csv/SimpleCSVReader.java:55-64 | opening a clean file takes the header from line 1, counts it, and buffers the first data row |
| SimpleCsvReader.NextClean | src/us/brianfeldman/fileformat/csv/SimpleCSVReader.java:115-120 | on a clean file `next` returns the buffered row and buffers the following one; at the end it returns null |
| SimpleCsvReader.Drain | src/us/brianfeldman/fileformat/csv/SimpleCSVReader.java:110-120 | the loop `while hasNext: next` ends with nothing buffered. On a clean file it has returned the remaining rows, split, in file order |
| SimpleCsvReader.ReadAll | src/us/brianfeldman/fileformat/csv/SimpleCSVReader.java:55-120 | opening a clean file and draining it returns every data row, split, in file order. The line number ends at the number of lines, header included. An empty file throws before any row |
| SimpleCsvReader.ReadErrorEndsInput | src/us/brianfeldman/fileformat/csv/SimpleCSVReader.java:92-98 | on a file, a read error while refilling is logged and taken for the end of input: `next` returns the buffered row and `hasNext` turns false |
| SimpleCsvReader.OpenTextFresh | src/us/brianfeldman/fileformat/csv/SimpleCSVReader.java:66-71 | a fresh reader opened on a blob has no header and nothing buffered; its first `next` returns null and buffers the blob's first row |
| SimpleCsvReader.OpenTextReadError | src/us/brianfeldman/fileformat/csv/SimpleCSVReader.java:92-96 | on a blob a read error cannot be logged, since there is no file name, and escapes as a null dereference |
| SimpleCsvReader.NeverOpened | src/us/brianfeldman/fileformat/csv/SimpleCSVReader.java:84-88 | closing a reader that was never opened does nothing |
| SimpleReader.Puts | src/us/brianfeldman/fileformat/csv/SimpleReader.java:116-118 | mapping the tokens onto the header throws exactly when the row has more tokens than the header has names, at the first column past the header |
| SimpleReader.RowMap | src/us/brianfeldman/fileformat/csv/SimpleReader.java:110-121 | building a row's map throws an index error exactly when the row has more tokens than header names; with no header read, any token throws |
| SimpleReader.PutsContents | src/us/brianfeldman/fileformat/csv/SimpleReader.java:116-118 | the map gains exactly the names of the columns read. The rightmost column of each name wins. A key no column names keeps its value |
| SimpleReader.RowMapContents | src/us/brianfeldman/fileformat/csv/SimpleReader.java:110-121 | a row no longer than the header maps exactly the names of the columns present, each to the token of its rightmost column. A repeated header name keeps the later column's value. Names past the last token are absent |
| SimpleReader.NextMap | src/us/brianfeldman/fileformat/csv/SimpleReader.java:110-121 | reading the next map changes only the stream; a reader never opened throws a null dereference |
| SimpleReader.Open | src/us/brianfeldman/fileformat/csv/SimpleReader.java:50-59 | the file is remembered even when opening fails. A missing file throws `IOException`. An empty file throws a null dereference. A successful open reads a header and counts one more line |
| SimpleReader.Next | src/us/brianfeldman/fileformat/csv/SimpleReader.java:91-102 | `next` always counts a line and returns the buffered row when it succeeds; when it throws, the look-ahead is unchanged |
| SimpleReader.IoRefillRepeatsRow | src/us/brianfeldman/fileformat/csv/SimpleReader.java:91-102 | a failed refill leaves the buffered row in place, so the following `next` returns the same row again |
| SimpleReader.LongRowThrows | src/us/brianfeldman/fileformat/csv/SimpleReader.java:91-121 | a row with more tokens than header names makes `next` throw an index error, and the previous row stays buffered |
| SimpleReader.OpenClean | src/us/brianfeldman/fileformat/csv/SimpleReader.java:50-59 | opening a clean file whose rows fit the header takes the header from line 1, counts it, and buffers the first row's map |
| SimpleReader.NextClean | src/us/brianfeldman/fileformat/csv/SimpleReader.java:91-102 | on a clean file `next` returns the buffered row's map and buffers the next one |
| SimpleReader.Iterate | src/us/brianfeldman/fileformat/csv/SimpleReader.java:91-102 | k calls of `next` without an exception return k rows and advance the line number by k |
| SimpleReader.IterateClean | src/us/brianfeldman/fileformat/csv/SimpleReader.java:91-121 | after opening a clean file, k calls of `next` return the first k rows' maps in file order, and the line number is k + 1 past the start |
| SimpleReader.NeverOpened | src/us/brianfeldman/fileformat/csv/SimpleReader.java:45-47 | a reader that was constructed but never opened has no row buffered, closes as a no-op, and its `next` throws a null dereference |
| SimpleReader.OpenTextNoHeader | src/us/brianfeldman/fileformat/csv/SimpleReader.java:62-66 | `open` on a text blob reads no header, so the first `next` on a blob whose first line has a token throws a null dereference at `header[c]` |
| SearchResults.New | src/us/brianfeldman/lucene/SearchResults.java:32-36 | a new result set is empty and carries the query, total and page as given |
| SearchResults.AddDocument | src/us/brianfeldman/lucene/SearchResults.java:42-44 | adding appends: size grows by one, earlier documents stay where they were, the new one is last. Query, total and page do not change |
| SearchResults.GetDocument | src/us/brianfeldman/lucene/SearchResults.java:52-54 | `getDocument(i)` succeeds exactly for 0 <= i < size, and otherwise throws an index error |
| SearchResults.AddAllKeeps | src/us/brianfeldman/lucene/SearchResults.java:42-54 | after any run of additions the i-th added document is at position i, the size is the number of additions, and the total is independent of it |
| SearchResults.BlockHtml | src/us/brianfeldman/lucene/SearchResults.java:103-108 | a document's block opens with `<div>` and closes with `</div><br/><hr/><br/>` |
| SearchResults.ToHtml | src/us/brianfeldman/lucene/SearchResults.java:97-112 | the StringBuilder loops produce the reference rendering: one block per document in insertion order, each field as `<b><font color='blue'>NAME</font></b> : VALUE<br/>` in field order, nothing escaped |
| SearchResults.HtmlOfAppend | src/us/brianfeldman/lucene/SearchResults.java:100-109 | rendering a concatenation of documents renders each part in turn |
| SearchResults.HtmlEmptyIff | src/us/brianfeldman/lucene/SearchResults.java:97-112 | the page is empty exactly when there is no document |
| SearchResults.HtmlOfAdd | src/us/brianfeldman/lucene/SearchResults.java:97-112 | adding a document appends exactly its block to the page |
| SearchResults.HtmlLength | src/us/brianfeldman/lucene/SearchResults.java:100-109 | every document contributes at least its frame to the page |
| SearchResults.FieldsHtmlAppend | src/us/brianfeldman/lucene/SearchResults.java:104-107 | fields render in field order |
| ResultModel.New | src/us/brianfeldman/lucene/ui/LuceneResultModel.java:20-27 | the table has one row per document and one column per key of the field map, named in the map's order |
| ResultModel.ColumnName | src/us/brianfeldman/lucene/ui/LuceneResultModel.java:49-51 | a column name exists exactly for an index inside the column list; otherwise an index error |
| ResultModel.ValueAt | src/us/brianfeldman/lucene/ui/LuceneResultModel.java:40-46 | the row is checked before the column. A cell can be read exactly when both indexes are in range |
| ResultModel.ValueAtCell | src/us/brianfeldman/lucene/ui/LuceneResultModel.java:40-46 | a cell is null exactly when the row's document has no field named by the column, and otherwise holds the value of the first such field |
| ResultModel.ValueAtDistinct | src/us/brianfeldman/lucene/ui/LuceneResultModel.java:40-46 | in a document whose field names are distinct, each field's value shows in the column of its name |
| SearchHistory.IndexOf | src/us/brianfeldman/lucene/ui/SearchHistory.java:28 | `indexOf` finds the first occurrence, and -1 exactly when the query is absent |
| SearchHistory.Evict | src/us/brianfeldman/lucene/ui/SearchHistory.java:25-27 | a history of fifteen or more entries loses its oldest; a shorter one is kept |
| SearchHistory.AddQuery | src/us/brianfeldman/lucene/ui/SearchHistory.java:24-35 | the query becomes the newest entry. The entries afterwards are exactly the query and those left after eviction |
| SearchHistory.PreviousQuery | src/us/brianfeldman/lucene/ui/SearchHistory.java:37-39 | asking an empty history throws an index error |
| SearchHistory.PreviousIsLatest | src/us/brianfeldman/lucene/ui/SearchHistory.java:33-39 | the query just added is what `previousQuery` returns |
| SearchHistory.Bounded | src/us/brianfeldman/lucene/ui/SearchHistory.java:22-33 | a history of at most fifteen entries stays at most fifteen |
| SearchHistory.ShrinksWhenFullAndPresent | src/us/brianfeldman/lucene/ui/SearchHistory.java:25-31 | a full history that holds the query other than as its oldest entry shrinks to fourteen |
| SearchHistory.StaysDistinct | src/us/brianfeldman/lucene/ui/SearchHistory.java:28-33 | pairwise distinct entries stay distinct, and the query then occurs only as the newest entry |
| SearchHistory.OrderKept | src/us/brianfeldman/lucene/ui/SearchHistory.java:25-33 | the entries that survive keep their relative order |
| SearchHistory.Reachable | src/us/brianfeldman/lucene/ui/SearchHistory.java:20-35 | any run of additions from a bounded, duplicate-free history stays bounded and duplicate-free |
| SearchPane.SizeValue | src/us/brianfeldman/lucene/ui/SearchPane.java:36 | a page size is one of 10, 25, 50 and 100 |
| SearchPane.GetPageSize | src/us/brianfeldman/lucene/ui/SearchPane.java:145-147 | the page size is positive, so the paging division is never by zero |
| SearchPane.SetSearchField | src/us/brianfeldman/lucene/ui/SearchPane.java:164-166 | only the text field changes |
| SearchPane.Update | src/us/brianfeldman/lucene/ui/SearchPane.java:183-205 | the query goes into the text field and becomes the page query. Page and total are recorded and the page size is copied from the combo box. Previous is enabled exactly off page 0. The busy state is untouched |
| SearchPane.SetBusy | src/us/brianfeldman/lucene/ui/SearchPane.java:214-226 | while busy the search button is disabled and the busy label shown, the reverse when idle; nothing else changes |
| SearchPane.InitialState | src/us/brianfeldman/lucene/ui/SearchPane.java:34-112 | before any search: page and total are 0, there is no query, both paging buttons are disabled and the page size is 10 |
| SearchPane.NextIffWholePageFollows | src/us/brianfeldman/lucene/ui/SearchPane.java:191-197 | for a non-negative total and page, next is enabled exactly when `(page + 1) * pageSize <= total` |
| SearchPane.NextOnNegativePage | src/us/brianfeldman/lucene/ui/SearchPane.java:191-197 | a negative page enables next for any non-negative total |
| SearchPane.NextOnLastFullPage | src/us/brianfeldman/lucene/ui/SearchPane.java:191-194 | when the total is an exact multiple of the page size, next stays enabled on the last non-empty page, whose following page is empty |
| SearchPane.TwentyHitsPageOne | src/us/brianfeldman/lucene/ui/SearchPane.java:191-194 | 20 hits at 10 per page leave next enabled on page 1 |
| SearchPane.LastPartialPage | src/us/brianfeldman/lucene/ui/SearchPane.java:191-197 | a page that holds the last hits but not a whole page disables next |
| SearchPane.BusyRoundTrip | src/us/brianfeldman/lucene/ui/SearchPane.java:214-226 | `setBusy(false)` undoes `setBusy(true)` on an idle pane, and either call twice equals it once |
| SearchPane.UpdateConsistent | src/us/brianfeldman/lucene/ui/SearchPane.java:183-205 | after any update the enabled flags agree with the recorded page, total and page size |
| SearchListener.ClipboardContents | src/us/brianfeldman/lucene/ui/listeners/SearchListener.java:119-133 | the clipboard's text, or "" when it holds none or the transfer fails |
| SearchListener.Request | src/us/brianfeldman/lucene/ui/listeners/SearchListener.java:60-86 | PageForward and PageBackward re-ask the last displayed query at page + 1 and page - 1. Every other action asks for page 0, and its query is null only for a selection search with nothing selected |
| SearchListener.ActionPerformed | src/us/brianfeldman/lucene/ui/listeners/SearchListener.java:53-116 | the action throws exactly on a null query, as a null dereference. Otherwise it either changes nothing, or ends with both panes idle. It never touches the selection and never takes back an error dialog |
| SearchListener.BlankQueryIgnored | src/us/brianfeldman/lucene/ui/listeners/SearchListener.java:88-91 | a blank query returns before the search: nothing changes, whatever the searcher would answer |
| SearchListener.ClipboardWithoutTextIgnored | src/us/brianfeldman/lucene/ui/listeners/SearchListener.java:119-133 | a clipboard search with no text on the clipboard yields "", which the blank guard rejects |
| SearchListener.GeneralSearch | src/us/brianfeldman/lucene/ui/listeners/SearchListener.java:61-63 | a general search asks for page 0 of the search field's text, and on success records it in the history |
| SearchListener.SuccessPath | src/us/brianfeldman/lucene/ui/listeners/SearchListener.java:97-115 | on success the query is the newest history entry. The pane shows the results' query, total and page. The content is the results' HTML. Both panes are idle again |
| SearchListener.ErrorPath | src/us/brianfeldman/lucene/ui/listeners/SearchListener.java:105-115 | on a parse or I/O error the history, content and paging state are untouched, exactly one dialog is shown, and both panes are idle again |
| SearchListener.InitialPaging | src/us/brianfeldman/lucene/ui/SearchPane.java:101-110 | the initial pane satisfies the paging invariant |
| SearchListener.RequestedPageNotNegative | src/us/brianfeldman/lucene/ui/listeners/SearchListener.java:65-73 | an action that can fire never asks for a negative page, and a paging action always has a query |
| SearchListener.ActionKeepsPaging | src/us/brianfeldman/lucene/ui/listeners/SearchListener.java:53-116 | every action that can fire keeps the paging invariant when the searcher answers with the page asked for, and only a selection search can throw |
| SearchListener.PagingFollowsUpdate | src/us/brianfeldman/lucene/ui/listeners/SearchListener.java:65-73 | after a page is shown, next and previous ask for the neighbouring pages of the same query |
| Configuration.GetProperty | src/us/brianfeldman/lucene/Configuration.java:201 | a present key gives its value, an absent one the fallback |
| Configuration.Load | src/us/brianfeldman/lucene/Configuration.java:197-217 | an unreadable file throws `IOException` before any change. Load succeeds exactly when the operator key is present and any CPU multiplier parses. A malformed multiplier throws after only the index path was set. The stop-word memo is never touched |
| Configuration.GetInstance | src/us/brianfeldman/lucene/Configuration.java:104-114 | the instance exists after any call. A stored instance is returned unchanged. A returned instance is the stored one. An unreadable file leaves the defaults |
| Configuration.UnreadableFileDefaults | src/us/brianfeldman/lucene/Configuration.java:59-67 | without a readable property file the settings are the field initialisers: index path `build/luceneIndex`, suffixes `csv`, field `_ALL`, operator OR, and no stop words built yet |
| Configuration.LoadKeepsAbsent | src/us/brianfeldman/lucene/Configuration.java:201-209 | absent keys keep the current index path, suffixes and default field; present ones replace them |
| Configuration.OperatorIff | src/us/brianfeldman/lucene/Configuration.java:210-215 | the operator is AND exactly when the value spells "and" in any case |
| Configuration.SuffixesSplit | src/us/brianfeldman/lucene/Configuration.java:204-207 | the suffixes are comma-free pieces that give back the value, up to trailing commas, when joined with commas |
| Configuration.LoadIdempotent | src/us/brianfeldman/lucene/Configuration.java:197-217 | loading the same file a second time changes nothing |
| Configuration.MissingOperator | src/us/brianfeldman/lucene/Configuration.java:201-211 | a file without the operator key throws a null dereference after the index path, suffixes and default field were updated, and the operator is kept |
| Configuration.InstanceOnce | src/us/brianfeldman/lucene/Configuration.java:104-114 | the instance is created once; later calls return it whatever the file then holds |
| Configuration.HalfLoadedInstance | src/us/brianfeldman/lucene/Configuration.java:104-114 | when the first call throws on a missing operator, the half-loaded instance stays stored, with the default operator, and the next call returns it |
| Configuration.ReadableLinesPrefix | src/us/brianfeldman/lucene/Configuration.java:256-262 | the lines read are the file's lines up to its end or its first read error |
| Configuration.StopWordMembership | src/us/brianfeldman/lucene/Configuration.java:236-262 | a word is a stop word exactly when a built-in entry, or a trimmed readable line of the file, equals it ignoring case |
| Configuration.AddAll | src/us/brianfeldman/lucene/Configuration.java:239-241 | adding a list to a case-insensitive set adds each entry lower-cased |
| Configuration.AddFileLines | src/us/brianfeldman/lucene/Configuration.java:247-262 | the read loop adds each line, trimmed and lower-cased, until the end or the first read error; the words added before an error stay |
| Configuration.BuildStopWords | src/us/brianfeldman/lucene/Configuration.java:236-263 | the set built is the union of both built-in lists and the file's readable lines trimmed, all lower-cased; a file that cannot be opened adds nothing |
| Configuration.GetStopWords | src/us/brianfeldman/lucene/Configuration.java:225-230 | the first call builds the set and keeps it; later calls return the kept set and read nothing |

## Behaviour worth knowing

- **Record length mismatch.** `RecordConsumer.buildLuceneDocument` does not compare the lengths of the header and the record.
  - Extra values are ignored (`RecordConsumer.ExtraValuesIgnored`).
  - A short record throws an index error half way through the reuse loop.
  - The values written before the throw stay in the buffer (`RecordConsumer.BuildLuceneDocument`, `RecordConsumer.ReuseKeepsShape`).
- **Read errors.** A read error in `SimpleCSVReader.readLine` is logged and read as the end of input only for a reader opened on a file. Logging asks for the file name, so on a text blob it throws a null dereference (`SimpleCsvReader.OpenTextReadError`).
- **Closed writer.** Once an out-of-memory error has closed the shared writer, every later build that reaches its first tokenization throws `AlreadyClosedException` from `writer.getAnalyzer()` there. An empty record, or a reuse that fails earlier with a class-cast or null error, throws that error instead. On first use the worker stores no buffer; on reuse the catch-all fields are already gone and only the first header field has been rewritten (`RecordConsumer.BuildLuceneDocument`, `RecordConsumer.ClosedWriterReuse`).
- **A column named `_ALL`.** The header is not checked against the catch-all name `_ALL`.
  - On first use such a column is stored as an ordinary stored TextField named `_ALL` (`RecordConsumer.CatchAllColumnFirstUse`).
  - On reuse, `removeFields("_ALL")` deletes it with the catch-all fields. As the first column, the `getField("_ALL")` that follows finds nothing and throws a null dereference (`RecordConsumer.CatchAllColumnFirstReuse`).
  - As a later column, `getField("_ALL")` finds a catch-all field laid down by an earlier column, and its token is overwritten with the value.
  - The layout and reuse properties above are stated for headers without such a column.
- **Refused documents.** A document the writer refuses (Lucene rejects an indexed term longer than 32766 bytes) throws an unchecked `IllegalArgumentException`. Neither `RecordConsumer.addToIndex` nor `RecordThread.run` catches it, so it escapes the task's `run` (`RecordConsumer.AddToIndex`, `RecordThread.Add`).
- **Empty pool.** A pool of size 0 is not rejected at construction: every `getDocument` throws an index error (`FlyweightPool.EmptyPoolThrows`).

## Left out

- `Indexer`: the thread pool, the bounded queue, sleep-polling and directory listing are concurrency and file-system work. The model follows one worker's buffer and one pool through a sequence of calls.
- `Searcher`: query parsing and scoring belong to Lucene. The three-argument `find` the listener calls is an input function (`SearchListener.Finder`), so the page-size bound on the documents of a result is not modelled.
- Analyzers: `CustomAnalyzer`, `MyAnalyzer` and `NGramAnalyzer` are Lucene filter chains. Tokenization is a function parameter.
- `Scanner` and `String.split`: the tokenization of a line with the reader's separator is a function parameter. Only `split(",")` of the suffix list is modelled exactly.
- The readers backed by third-party libraries, `ComplexReader`, `ComplexCSVReader`, `BeanReader` and `SampleCSVBean`: their parsing is done by code that is not part of this model.
- `SimpleCSVReader.getHeader`, `getLineNumber`, `SearchHistory.getList`, `LuceneResultModel.getRowCount` and `getColumnCount` (`ResultModel.RowCount`, `ResultModel.ColumnCount`), `SearchResults.size` (`SearchResults.Size`), `SearchPane.getPageQuery` (`SearchPane.GetPageQuery`) and `hasNext` of both readers (`RecordIterator.HasNext`): these are plain field reads or null tests of a field, so they carry no contract of their own. `ResultModel.New`, `SearchResults.AddAllKeeps` and the reader lemmas state what they return. `SimpleReader.remove` only throws `UnsupportedOperationException`.
- `RecordConsumer` and `RecordThread` constructors: they only store their arguments, which the model passes to each operation instead.
- Constructed states are constants, not operations: `Configuration.Defaults` (stated by `Configuration.UnreadableFileDefaults`), `SearchPane.Initial` (`SearchPane.InitialState`), and `SimpleCsvReader.Fresh` and `SimpleReader.Fresh` for the reader constructors (`SimpleCsvReader.NeverOpened`, `SimpleReader.NeverOpened`).
- The writer's rollback on close: after an out-of-memory error Lucene's `IndexWriter.close()` rolls back to the last commit. `Writer.documents` records what `addDocument` accepted, not what survives in the index after that close.
- `SearchResults.stdout`: console output.
- Swing and AWT: layout, icons, cursors, dialogs and the history menu refresh in `addQuery`. Only the values the paging and dispatch decisions read and write are kept. The wait cursor is one flag, and the error dialogs are a counter.
- `Configuration.getIndexWriterConfig`, `getSynonymMap`/`buildSynonymMap` and the log4j static block: these configure foreign libraries.
- The CPU multiplier: a floating-point value. Only whether its text parses as a double is modelled, and that is a parameter.
- `Properties.load`: parsing of the property file is not modelled. The file is given as a key/value map, or as absent when it cannot be read.
- `CharArraySet` internals (initial capacity, `char[]` storage): the set is a `set<string>` of lower-cased entries.
- Case mapping: `toLowerCase` and `equalsIgnoreCase` are modelled on the ASCII letters only. Locale-dependent and non-ASCII case mapping is not modelled.
- `ThreadLocal`, `synchronized` and the sharing of the writer between threads: concurrency. The worker buffer is explicit, and the pool is followed through one sequence of calls.
- Logging: every log call is dropped, except where it can throw. That is the file-name lookup in the readers.
- SimpleCsvReader.ReadRow: the content of a row after a read error on a file is not stated beyond "nothing escapes". The lemmas state the read-error cases in full.
- RecordConsumer.ReuseHeader and RecordConsumer.ReuseMetadata: their own contracts only state the record-length and size facts. The loop lemmas named in the table carry the behaviour.
