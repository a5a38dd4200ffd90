# Verified model of the LangFramework data core

This Dafny project models the deterministic core of the LangFramework data connectors, a Java library that loads documents from files and services, splits them into chunks and stores them in vector and SQL databases. It models:

- **The document container** (`Documents`). A text plus a string-to-string metadata map. It is a class whose `AddMetadata` updates the map in place.
- **The text splitter** (`TextSplitter`, `CharacterSplitter`). It covers `validateParameters`, the regex shortcut and the cursor loop of `splitText`:
  - a tentative end at `start + chunkSize`, clipped to the text;
  - that end pushed past the next separator at or after it;
  - the chunk emitted with every separator removed;
  - the cursor stepped back by `chunkOverlap`.

  The loop is `ChunkLoop`, a `while` loop proved equal to the function `Run`.
- **Chunk documents** (`ChunkDocuments`). The two `createDocuments` overloads. Each chunk becomes a new `Document` that carries its parent's metadata plus `lookup_index`, the decimal chunk number.
- **The SQL text builders**:
  - in the pgvector client (`Pgvector`): `createTable`, `insertData`, `addIndex`, `getNN`, `deleteTable`, `convertFirstArrayToPrimitive`, and the client's state with its `addDocuments` and `searchSimilarity`;
  - in the generic SQL client (`DatabaseSql`): `insertIntoTable`, `updateRecord`, `deleteRecord`, and the row shaping of `getTablesRows` and `executeAndPrintQuery`.

  `SqlText` holds what the two clients share: column lists, positional parameter binding and the insert statement text.
- **The CSV loader** (`Csv`). The per-record text (`header:value` per column, separated by the two characters `\` and `n`), the per-row metadata, and the read loop of both `readData` overloads.
- **The S3 loader selection** (`S3`). The extension after the last dot, upper-cased, chooses the loader. Anything else is rejected, and `readData` returns null.

`JavaStrings` gives the Java library behaviour the code relies on:
- `indexOf` from an index;
- `lastIndexOf`;
- `replace(sep, "")`;
- `StringBuilder.setLength`;
- `String.valueOf` on a count;
- `toUpperCase`.

`Wrappers` holds `Option` and `Result`.

Modelling choices:
- **Null and exceptions.** A Java `null` argument is `None`. A thrown exception is a `Failure`, or a `None` result where the source catches it and returns null.
- **Maps.** A Java `HashMap` handed to a statement builder is a sequence of (key, value) pairs in the map's iteration order. The builders rely on `keySet()`/`entrySet()` and `values()` visiting entries in that same order.
- **The loop that never ends.** The splitter's loop never ends when a cursor position repeats, so `Run` carries the set of cursors already visited. A repeated cursor gives `Failure(Diverges)`, and a negative cursor gives `Failure(IndexOutOfBounds)`, the exception `substring` throws.
- **Outside effects as parameters.** Embedding services, presigned URLs, loaders, regex splitting and database answers are parameters. They are functions or plain values such as the rows a query returns.

Two properties one might expect of the splitter do not hold for the code, and the model follows the code:
- **The round trip fails.** One might expect that for every `0 <= chunkOverlap < chunkSize`, the chunks concatenated equal the text with its separators removed. The code strips separators chunk by chunk. A separator that straddles a chunk edge therefore survives in halves:
  - `SeparatorSurvivesAtChunkEdge` shows this with zero overlap;
  - `WorkedExample` shows it for a 45-character example text, where the second chunk starts with a lone line break.
- **The chunk count is off by more than one.** One might expect the chunk count to be within one of `ceil(length / (chunkSize - chunkOverlap))`. Pushing chunk ends past separators can make far fewer chunks: `FewerChunksExample` gives one chunk where the formula gives four.

What does hold is stated by these lemmas:
- `ZeroOverlapTiles`: with zero overlap, the unstripped pieces tile the text.
- `SpansOverlap`: consecutive chunks overlap by exactly `chunkOverlap` characters.
- `ChunkCountBound`: every chunk but the last advances the cursor by at least `chunkSize - chunkOverlap`.

Two edge cases of the code are modelled as they behave:
- **pgvector with an empty column map.** The builders do not throw. They produce `CREATE TABLE t, PRIMARY KEY (id))` and `INSERT INTO t) VALUES)`. `CreateTableBalanced` and `InsertDataBalanced` prove the parentheses balance exactly when at least one column is given.
- **The generic SQL client with an empty map.** It throws from `setLength(-2)` before any statement is prepared.

## Model

| member | source | states |
|---|---|---|
| JavaStrings.IndexOf | lang-data-core/src/main/java/ai/langframework/langdatacore/splitters/CharacterTextSplitter.java:65 | `indexOf(pat, from)` is -1 when `pat` occurs nowhere at or after `from`; otherwise it is the first position at or after `from` where it occurs |
| JavaStrings.LastIndexOf | lang-data-saas-connectors/lang-data-s3-connector/src/main/java/ai/langframework/langdatas3/S3ConnectorClient.java:60 | `lastIndexOf(c)` is the last position holding `c`, or -1 when `c` does not occur |
| JavaStrings.RemoveAllAfterLeadFree | lang-data-core/src/main/java/ai/langframework/langdatacore/splitters/CharacterTextSplitter.java:71 | `replace(sep, "")` keeps text that cannot start a separator, drops the separator after it, and goes on removing in the rest |
| JavaStrings.SetLength | lang-data-saas-connectors/lang-data-sql-database-connector/src/main/java/ai/langframework/langdatasqldatabase/DatabaseSqlConnectorClient.java:87-88 | `setLength(n)` fails (Java throws) exactly when `n` is negative, truncates to `n` when `n` is within the length, and otherwise keeps the text as a prefix of a longer result |
| JavaStrings.ParseNatToString | lang-data-core/src/main/java/ai/langframework/langdatacore/splitters/TextSplitter.java:64 | the decimal string written by `String.valueOf` for a count reads back as that count |
| JavaStrings.NatToStringInjective | lang-data-core/src/main/java/ai/langframework/langdatacore/splitters/TextSplitter.java:64 | different counts give different decimal strings |
| TextSplitter.ValidateParameters | lang-data-core/src/main/java/ai/langframework/langdatacore/splitters/TextSplitter.java:76-86 | no error exactly when the text is given, `chunkSize > 0` and `chunkOverlap >= 0`; otherwise null text, then a non-positive size, then a negative overlap, in that order |
| CharacterSplitter.WithDefaultSeparator | lang-data-core/src/main/java/ai/langframework/langdatacore/splitters/CharacterTextSplitter.java:33-37 | the two-argument constructor keeps size and overlap and uses the separator `"\n\n"` in plain (non-regex) mode |
| CharacterSplitter.ValidateParameters | lang-data-core/src/main/java/ai/langframework/langdatacore/splitters/CharacterTextSplitter.java:88-94 | the base checks first; then, with those passed, a null separator is rejected; no error exactly when text and separator are given, the size is positive and the overlap is not negative |
| CharacterSplitter.ChunkEnd | lang-data-core/src/main/java/ai/langframework/langdatacore/splitters/CharacterTextSplitter.java:59-68 | a chunk's end lies after its start, within the text, and not before `min(start + chunkSize, length)` |
| CharacterSplitter.ChunkEndBoundary | lang-data-core/src/main/java/ai/langframework/langdatacore/splitters/CharacterTextSplitter.java:59-68 | the end is just past the first separator found at or after `min(start + chunkSize, length)`, or that position itself when there is no such separator |
| CharacterSplitter.FindChunkEnd | lang-data-core/src/main/java/ai/langframework/langdatacore/splitters/CharacterTextSplitter.java:59-68 | the `Math.min`, `indexOf` and push-past-the-separator steps compute the boundary `ChunkEnd` |
| CharacterSplitter.NextCursor | lang-data-core/src/main/java/ai/langframework/langdatacore/splitters/CharacterTextSplitter.java:73-78 | after the last chunk the cursor is at the end; otherwise it is `end - chunkOverlap`, so it advances by at least `chunkSize - chunkOverlap` |
| CharacterSplitter.RunFailures | lang-data-core/src/main/java/ai/langframework/langdatacore/splitters/CharacterTextSplitter.java:58-78 | the cursor loop fails only by a negative cursor (`substring` throws) or a repeated cursor (the loop never ends) |
| CharacterSplitter.ChunkLoop | lang-data-core/src/main/java/ai/langframework/langdatacore/splitters/CharacterTextSplitter.java:55-80 | the `while` loop returns exactly the chunks of `Run` from cursor 0, or fails as `Run` does |
| CharacterSplitter.SplitText | lang-data-core/src/main/java/ai/langframework/langdatacore/splitters/CharacterTextSplitter.java:46-81 | `splitText` validates first, returns the regex split unchanged in regex mode (size and overlap unused), and otherwise runs the cursor loop |
| CharacterSplitter.Spans | lang-data-core/src/main/java/ai/langframework/langdatacore/splitters/CharacterTextSplitter.java:55-78 | with `0 <= overlap < size` the chunk ranges are non-empty and inside the text, the first starts at the cursor, and there are none exactly when the cursor is at the end (empty text gives no chunk) |
| CharacterSplitter.SpansReachEnd | lang-data-core/src/main/java/ai/langframework/langdatacore/splitters/CharacterTextSplitter.java:74-78 | the last chunk range ends at the end of the text |
| CharacterSplitter.SpansEndAtChunkEnd | lang-data-core/src/main/java/ai/langframework/langdatacore/splitters/CharacterTextSplitter.java:59-70 | every chunk range ends at the boundary computed from its own start |
| CharacterSplitter.SpansOverlap | lang-data-core/src/main/java/ai/langframework/langdatacore/splitters/CharacterTextSplitter.java:73-75 | each chunk after the first starts `chunkOverlap` characters before its predecessor ends |
| CharacterSplitter.RunFollowsSpans | lang-data-core/src/main/java/ai/langframework/langdatacore/splitters/CharacterTextSplitter.java:55-80 | with `0 <= overlap < size` the loop ends and returns exactly the stripped chunks of the ranges, one per range, in order |
| CharacterSplitter.SplitFollowsSpans | lang-data-core/src/main/java/ai/langframework/langdatacore/splitters/CharacterTextSplitter.java:46-81 | a valid plain-mode split with overlap below size returns the stripped chunk of each range |
| CharacterSplitter.RunNeverOutOfBounds | lang-data-core/src/main/java/ai/langframework/langdatacore/splitters/CharacterTextSplitter.java:73-78 | with an overlap at most the size, the cursor never becomes negative |
| CharacterSplitter.SplitFailureCauses | lang-data-core/src/main/java/ai/langframework/langdatacore/splitters/CharacterTextSplitter.java:46-81 | a split fails only on invalid parameters, a regex that does not compile, or an overlap at least the size; a negative cursor needs an overlap strictly above the size |
| CharacterSplitter.ZeroOverlapTiles | lang-data-core/src/main/java/ai/langframework/langdatacore/splitters/CharacterTextSplitter.java:55-78 | with zero overlap the unstripped chunks concatenate to the text |
| CharacterSplitter.ChunkCountBound | lang-data-core/src/main/java/ai/langframework/langdatacore/splitters/CharacterTextSplitter.java:58-78 | with m chunks, `(m - 1) * (chunkSize - chunkOverlap)` is below the text's length, so the loop terminates |
| CharacterSplitter.HangExample | lang-data-core/src/main/java/ai/langframework/langdatacore/splitters/CharacterTextSplitter.java:73-78 | size 1 and overlap 1 on `"abc"` revisits a cursor: the loop never ends |
| CharacterSplitter.NegativeCursorExample | lang-data-core/src/main/java/ai/langframework/langdatacore/splitters/CharacterTextSplitter.java:70-78 | size 1 and overlap 2 on `"abc"` steps the cursor below zero: `substring` throws |
| CharacterSplitter.OverlapExample | lang-data-core/src/main/java/ai/langframework/langdatacore/splitters/CharacterTextSplitter.java:55-78 | size 4 and overlap 2 split `"abcdef"` into `"abcd"` and `"cdef"` |
| CharacterSplitter.SeparatorExample | lang-data-core/src/main/java/ai/langframework/langdatacore/splitters/CharacterTextSplitter.java:59-71 | a chunk end that meets a separator is pushed past it, and the separator is removed from that chunk |
| CharacterSplitter.SeparatorSurvivesAtChunkEdge | lang-data-core/src/main/java/ai/langframework/langdatacore/splitters/CharacterTextSplitter.java:70-71 | a separator split by a chunk edge survives as halves, so concatenating the chunks does not give the text without separators |
| CharacterSplitter.FewerChunksExample | lang-data-core/src/main/java/ai/langframework/langdatacore/splitters/CharacterTextSplitter.java:62-68 | a separator beyond the tentative end makes one chunk of an eight-character text with size 2 |
| CharacterSplitter.WorkedExample | lang-data-core/src/main/java/ai/langframework/langdatacore/splitters/CharacterTextSplitter.java:55-78 | the 45-character text with its only separator at 24, size 30 and overlap 5, gives chunks `[0,30)` and `[25,45)`; the second keeps a lone line break |
| ChunkDocuments.ChunkMetadata | lang-data-core/src/main/java/ai/langframework/langdatacore/splitters/TextSplitter.java:63-64 | a chunk's metadata has its parent's keys plus `lookup_index`, which holds the decimal chunk number and overrides any inherited one; every other key keeps its parent's value |
| ChunkDocuments.CreateDocuments | lang-data-core/src/main/java/ai/langframework/langdatacore/splitters/TextSplitter.java:56-70 | the single-document overload returns new documents, one per chunk of the parent's text, fails as the split fails, and leaves the parent unchanged |
| ChunkDocuments.CreateDocumentsList | lang-data-core/src/main/java/ai/langframework/langdatacore/splitters/TextSplitter.java:34-49 | the list overload returns new documents: each input's chunk documents in input order, with `lookup_index` counting from 0 per input; it fails with the first input's failure and leaves the inputs unchanged |
| ChunkDocuments.SplitDocumentsStep | lang-data-core/src/main/java/ai/langframework/langdatacore/splitters/TextSplitter.java:37-46 | one more input appends its chunk documents or fails the whole call |
| ChunkDocuments.SplitDocumentsFailurePersists | lang-data-core/src/main/java/ai/langframework/langdatacore/splitters/TextSplitter.java:37-38 | once an input fails, the whole list fails with that error |
| ChunkDocuments.SplitDocumentsSingle | lang-data-core/src/main/java/ai/langframework/langdatacore/splitters/TextSplitter.java:34-49 | the list overload on one document agrees with the single-document overload |
| ChunkDocuments.SplitDocumentsAppend | lang-data-core/src/main/java/ai/langframework/langdatacore/splitters/TextSplitter.java:34-49 | splitting two lists back to back concatenates their outputs |
| ChunkDocuments.SplitDocumentsCount | lang-data-core/src/main/java/ai/langframework/langdatacore/splitters/TextSplitter.java:37-46 | the number of output documents is the sum of the inputs' chunk counts |
| ChunkDocuments.ChunkIndexRoundTrip | lang-data-core/src/main/java/ai/langframework/langdatacore/splitters/TextSplitter.java:64 | `lookup_index` is a digit string that reads back as the chunk number |
| ChunkDocuments.ChunkIndicesDistinct | lang-data-core/src/main/java/ai/langframework/langdatacore/splitters/TextSplitter.java:61-64 | two chunks of one parent have different `lookup_index` values |
| ChunkDocuments.NeverNullText | lang-data-core/src/main/java/ai/langframework/langdatacore/splitters/TextSplitter.java:60 | splitting a document never fails for null text, because a document's text is never null |
| Documents.Document.Empty | lang-data-core/src/main/java/ai/langframework/langdatacore/Document.java:13-16 | the default constructor gives empty text and empty metadata |
| Documents.Document.WithText | lang-data-core/src/main/java/ai/langframework/langdatacore/Document.java:23-26 | a null text becomes `""`; metadata is empty |
| Documents.Document.constructor | lang-data-core/src/main/java/ai/langframework/langdatacore/Document.java:34-37 | a null text becomes `""`, a null map an empty one; a given map is kept as a value |
| Documents.Document.GetText | lang-data-core/src/main/java/ai/langframework/langdatacore/Document.java:44-46 | returns the stored text |
| Documents.Document.GetMetadata | lang-data-core/src/main/java/ai/langframework/langdatacore/Document.java:53-56 | returns the current metadata |
| Documents.Document.AddMetadata | lang-data-core/src/main/java/ai/langframework/langdatacore/Document.java:64-68 | with key and value given, sets that key (inserting or overwriting) and leaves other keys and the text alone; with either null, changes nothing |
| SqlText.Positional | lang-data-saas-connectors/lang-data-sql-database-connector/src/main/java/ai/langframework/langdatasqldatabase/DatabaseSqlConnectorClient.java:100-104 | parameters are numbered from 1 to n, and parameter k is the k-th value |
| SqlText.BindAll | lang-data-saas-connectors/lang-data-sql-database-connector/src/main/java/ai/langframework/langdatasqldatabase/DatabaseSqlConnectorClient.java:100-104 | the `parameterIndex++` loop binds exactly the positional parameters |
| SqlText.PositionalSize | lang-data-vector-connectors/lang-data-pgvector-connector/src/main/java/ai/langframework/langdatapgvector/PgvectorConnectorClient.java:166-171 | as many parameters are bound as there are values |
| SqlText.InsertPlaceholders | lang-data-saas-connectors/lang-data-sql-database-connector/src/main/java/ai/langframework/langdatasqldatabase/DatabaseSqlConnectorClient.java:90-97 | an insert statement holds one `?` per column when no name contains `?` |
| SqlText.BuilderChop | lang-data-saas-connectors/lang-data-sql-database-connector/src/main/java/ai/langframework/langdatasqldatabase/DatabaseSqlConnectorClient.java:87-88 | after the entry loop, dropping the last two characters leaves the items joined by `", "`, or the bare prefix when there is no item |
| Pgvector.CreateTable | lang-data-vector-connectors/lang-data-pgvector-connector/src/main/java/ai/langframework/langdatapgvector/PgvectorConnectorClient.java:117-129 | the builder, its trim and the primary-key suffix give `CREATE TABLE t (c1 T1, ..., PRIMARY KEY (id))`, and `CREATE TABLE t, PRIMARY KEY (id))` for no columns |
| Pgvector.CreateTableBalanced | lang-data-vector-connectors/lang-data-pgvector-connector/src/main/java/ai/langframework/langdatapgvector/PgvectorConnectorClient.java:118-129 | the statement's parentheses balance exactly when there is at least one column |
| Pgvector.InsertQuery | lang-data-vector-connectors/lang-data-pgvector-connector/src/main/java/ai/langframework/langdatapgvector/PgvectorConnectorClient.java:147-162 | the two builders and their trims give `INSERT INTO t (c1, ...) VALUES (?, ...)` with one `?` per column, and `INSERT INTO t) VALUES)` for none |
| Pgvector.InsertDataBalanced | lang-data-vector-connectors/lang-data-pgvector-connector/src/main/java/ai/langframework/langdatapgvector/PgvectorConnectorClient.java:148-162 | the insert's parentheses balance exactly when there is at least one column |
| Pgvector.InsertData | lang-data-vector-connectors/lang-data-pgvector-connector/src/main/java/ai/langframework/langdatapgvector/PgvectorConnectorClient.java:146-177 | the statement text is the insert over the map's keys, and parameter k is bound to the k-th value in the same order |
| Pgvector.AddIndexSql | lang-data-vector-connectors/lang-data-pgvector-connector/src/main/java/ai/langframework/langdatapgvector/PgvectorConnectorClient.java:241-246 | the `WITH (options)` clause is appended exactly when options are given and not empty |
| Pgvector.AddIndexOptionsReadBack | lang-data-vector-connectors/lang-data-pgvector-connector/src/main/java/ai/langframework/langdatapgvector/PgvectorConnectorClient.java:241-246 | the statement starts with the fixed index clause; it is longer exactly when options are given and not empty, and then the options are recovered verbatim between ` WITH (` and the closing `)` |
| Pgvector.AddIndexBaseCounts | lang-data-vector-connectors/lang-data-pgvector-connector/src/main/java/ai/langframework/langdatapgvector/PgvectorConnectorClient.java:241-242 | without options the statement has exactly one `(` and one `)` when the names hold none |
| Pgvector.WithClauseCounts | lang-data-vector-connectors/lang-data-pgvector-connector/src/main/java/ai/langframework/langdatapgvector/PgvectorConnectorClient.java:244-246 | the ` WITH (options)` clause has exactly one `(` and one `)` when the options hold none |
| Pgvector.AddIndexBalanced | lang-data-vector-connectors/lang-data-pgvector-connector/src/main/java/ai/langframework/langdatapgvector/PgvectorConnectorClient.java:241-246 | with parenthesis-free table name, index type, method and options, the statement's parentheses balance, with or without the `WITH` clause |
| Pgvector.GetNN | lang-data-vector-connectors/lang-data-pgvector-connector/src/main/java/ai/langframework/langdatapgvector/PgvectorConnectorClient.java:188-194 | the nearest-neighbour query binds the vector at 1 and the limit at 2, and nothing else |
| Pgvector.GetNNParameters | lang-data-vector-connectors/lang-data-pgvector-connector/src/main/java/ai/langframework/langdatapgvector/PgvectorConnectorClient.java:189-192 | the query text has exactly as many `?` as bound parameters |
| Pgvector.DeleteTableSql | lang-data-vector-connectors/lang-data-pgvector-connector/src/main/java/ai/langframework/langdatapgvector/PgvectorConnectorClient.java:262-263 | the drop statement is `DROP TABLE ` followed by the table's name |
| Pgvector.CopyToArray | lang-data-vector-connectors/lang-data-pgvector-connector/src/main/java/ai/langframework/langdatapgvector/PgvectorConnectorClient.java:337-341 | a new array with the same elements in the same order |
| Pgvector.ConvertFirstArrayToPrimitive | lang-data-vector-connectors/lang-data-pgvector-connector/src/main/java/ai/langframework/langdatapgvector/PgvectorConnectorClient.java:421-437 | an empty list gives a new empty array; otherwise a new array equal to the first list element, later ones ignored |
| Pgvector.EmbedAsArray | lang-data-vector-connectors/lang-data-pgvector-connector/src/main/java/ai/langframework/langdatapgvector/PgvectorConnectorClient.java:322-343 | the embedding arrives as a new array equal to the service's vector |
| Pgvector.PgvectorClient.constructor | lang-data-vector-connectors/lang-data-pgvector-connector/src/main/java/ai/langframework/langdatapgvector/PgvectorConnectorClient.java:20-31 | no table name, no embedding service, model `text-embedding-ada-002`, limit 5 |
| Pgvector.PgvectorClient.Connected | lang-data-vector-connectors/lang-data-pgvector-connector/src/main/java/ai/langframework/langdatapgvector/PgvectorConnectorClient.java:44-79 | the connecting constructor records the embedding service and keeps the defaults |
| Pgvector.PgvectorClient.SetEmbeddingModel | lang-data-vector-connectors/lang-data-pgvector-connector/src/main/java/ai/langframework/langdatapgvector/PgvectorConnectorClient.java:86-88 | sets the model and nothing else |
| Pgvector.PgvectorClient.SetLimit | lang-data-vector-connectors/lang-data-pgvector-connector/src/main/java/ai/langframework/langdatapgvector/PgvectorConnectorClient.java:95-97 | sets the limit and nothing else |
| Pgvector.PgvectorClient.SetTableName | lang-data-vector-connectors/lang-data-pgvector-connector/src/main/java/ai/langframework/langdatapgvector/PgvectorConnectorClient.java:104-106 | sets the table name and nothing else |
| Pgvector.PgvectorClient.Inserts | lang-data-vector-connectors/lang-data-pgvector-connector/src/main/java/ai/langframework/langdatapgvector/PgvectorConnectorClient.java:312-354 | without a table name or an embedding service no insert; otherwise one insert per document |
| Pgvector.PgvectorClient.AddDocuments | lang-data-vector-connectors/lang-data-pgvector-connector/src/main/java/ai/langframework/langdatapgvector/PgvectorConnectorClient.java:312-354 | the loop issues, in list order, the insert of each document's embedding under `vector` and its text under `text`, and nothing when the guard fails |
| Pgvector.PgvectorClient.SearchSimilarity | lang-data-vector-connectors/lang-data-pgvector-connector/src/main/java/ai/langframework/langdatapgvector/PgvectorConnectorClient.java:363-413 | without a table name or an embedding service: null and no query; otherwise the nearest-neighbour query for the query's embedding and the configured limit, and one new document per answer row |
| DatabaseSql.InsertIntoTable | lang-data-saas-connectors/lang-data-sql-database-connector/src/main/java/ai/langframework/langdatasqldatabase/DatabaseSqlConnectorClient.java:76-107 | an empty map throws from `setLength(-2)`; otherwise `INSERT INTO t (k1, ...) VALUES (?, ...)` with value k bound to parameter k in entry order |
| DatabaseSql.InsertIntoTableParameters | lang-data-saas-connectors/lang-data-sql-database-connector/src/main/java/ai/langframework/langdatasqldatabase/DatabaseSqlConnectorClient.java:81-104 | the statement holds exactly as many `?` as bound parameters |
| DatabaseSql.UpdateRecord | lang-data-saas-connectors/lang-data-sql-database-connector/src/main/java/ai/langframework/langdatasqldatabase/DatabaseSqlConnectorClient.java:118-139 | an empty map throws; otherwise `UPDATE t SET k1 = ?, ... WHERE cond` with values bound in key order |
| DatabaseSql.AssignmentsCount | lang-data-saas-connectors/lang-data-sql-database-connector/src/main/java/ai/langframework/langdatasqldatabase/DatabaseSqlConnectorClient.java:122-124 | the assignments hold one `?` per key |
| DatabaseSql.UpdateRecordParameters | lang-data-saas-connectors/lang-data-sql-database-connector/src/main/java/ai/langframework/langdatasqldatabase/DatabaseSqlConnectorClient.java:120-136 | the update holds exactly as many `?` as bound parameters |
| DatabaseSql.DeleteRecord | lang-data-saas-connectors/lang-data-sql-database-connector/src/main/java/ai/langframework/langdatasqldatabase/DatabaseSqlConnectorClient.java:149 | the statement is `DELETE FROM `, the table name, ` WHERE ` and the condition, and nothing more |
| DatabaseSql.CompleteRows | lang-data-saas-connectors/lang-data-sql-database-connector/src/main/java/ai/langframework/langdatasqldatabase/DatabaseSqlConnectorClient.java:181-188 | the rows read before a failing `next()`: a prefix of the answer, all of it when nothing fails |
| DatabaseSql.ReadRow | lang-data-saas-connectors/lang-data-sql-database-connector/src/main/java/ai/langframework/langdatasqldatabase/DatabaseSqlConnectorClient.java:183-186 | the inner loop reads the first `columnCount` columns in order |
| DatabaseSql.ReadRows | lang-data-saas-connectors/lang-data-sql-database-connector/src/main/java/ai/langframework/langdatasqldatabase/DatabaseSqlConnectorClient.java:181-188 | the `while (next())` loop reads exactly the complete rows and reports whether any `next()` threw, the final one that would end the loop included |
| DatabaseSql.TablesRows | lang-data-saas-connectors/lang-data-sql-database-connector/src/main/java/ai/langframework/langdatasqldatabase/DatabaseSqlConnectorClient.java:50-66 | fails exactly when the query is refused or any `next()` throws, the final one included; otherwise one list per row, each with one entry per column, entry `j` of row `i` being `getString` of that value (None for SQL NULL) |
| DatabaseSql.GetTablesRows | lang-data-saas-connectors/lang-data-sql-database-connector/src/main/java/ai/langframework/langdatasqldatabase/DatabaseSqlConnectorClient.java:50-66 | issues `select * from t` and returns `TablesRows`: every row's values as nullable strings, or the SQLException |
| DatabaseSql.QueryResult | lang-data-saas-connectors/lang-data-sql-database-connector/src/main/java/ai/langframework/langdatasqldatabase/DatabaseSqlConnectorClient.java:163-194 | empty when the query fails; otherwise the column names first, then each row read before a failure |
| DatabaseSql.ExecuteAndPrintQuery | lang-data-saas-connectors/lang-data-sql-database-connector/src/main/java/ai/langframework/langdatasqldatabase/DatabaseSqlConnectorClient.java:163-194 | the loops return `QueryResult`, and a failure mid-way returns the rows so far |
| DatabaseSql.QueryResultShape | lang-data-saas-connectors/lang-data-sql-database-connector/src/main/java/ai/langframework/langdatasqldatabase/DatabaseSqlConnectorClient.java:174-188 | every row after the header has one entry per column, and all rows are returned when nothing fails |
| Csv.SerializeRecord | lang-data-file-connectors/lang-data-csv-connector/src/main/java/ai/langframework/langdatacsv/CsvConnectorClient.java:43-51 | the `+=` loop gives the fields joined by a backslash and `n`, with none after the last; a record missing a column fails |
| Csv.RecordTextSingleLine | lang-data-file-connectors/lang-data-csv-connector/src/main/java/ai/langframework/langdatacsv/CsvConnectorClient.java:43-51 | without line breaks in headers or values, a record's text is one line: the separator is not a line break |
| Csv.NoHeadersEmptyText | lang-data-file-connectors/lang-data-csv-connector/src/main/java/ai/langframework/langdatacsv/CsvConnectorClient.java:40-43 | with zero header columns a record's text is empty |
| Csv.RowMetadata | lang-data-file-connectors/lang-data-csv-connector/src/main/java/ai/langframework/langdatacsv/CsvConnectorClient.java:52-55 | the keys are `FileName`, `Source`, `FileSize` and `Row`; a file gives its name, absolute path and length; a link gives its URL file part, the link, and the length of the URL file part |
| Csv.RowMetadataReadsBack | lang-data-file-connectors/lang-data-csv-connector/src/test/java/CsvConnectorTest.java:53-55 | `Row` and `FileSize` read back as the record number and the file (or URL file part) length |
| Csv.Readable | lang-data-file-connectors/lang-data-csv-connector/src/main/java/ai/langframework/langdatacsv/CsvConnectorClient.java:39-67 | the records read before the first exception: each has every column, and the next one is short or is where the parser throws |
| Csv.CsvDocuments | lang-data-file-connectors/lang-data-csv-connector/src/main/java/ai/langframework/langdatacsv/CsvConnectorClient.java:39-58 | one document per record read, in record order, with the record's text and its row metadata (rows numbered from 1) |
| Csv.ReadData | lang-data-file-connectors/lang-data-csv-connector/src/main/java/ai/langframework/langdatacsv/CsvConnectorClient.java:29-68 | the loop returns new documents equal to `CsvDocuments`: none when the source cannot be read, and those built before the first exception otherwise |
| Csv.AllRecordsRead | lang-data-file-connectors/lang-data-csv-connector/src/main/java/ai/langframework/langdatacsv/CsvConnectorClient.java:39-58 | when every record has every column and the parser never throws, every record gives a document |
| S3.Extension | lang-data-saas-connectors/lang-data-s3-connector/src/main/java/ai/langframework/langdatas3/S3ConnectorClient.java:60 | the extension holds no dot, ends the object name, follows the last dot, and is the whole name when there is no dot |
| S3.ExtensionAfterLastDot | lang-data-saas-connectors/lang-data-s3-connector/src/main/java/ai/langframework/langdatas3/S3ConnectorClient.java:60 | the extension of `stem.ext` is `ext` when `ext` has no dot |
| S3.Extensions | lang-data-saas-connectors/lang-data-s3-connector/src/main/java/ai/langframework/langdatas3/S3ConnectorClient.java:63-85 | every loader is chosen by at least one extension |
| S3.LoaderForMatchesExtensions | lang-data-saas-connectors/lang-data-s3-connector/src/main/java/ai/langframework/langdatas3/S3ConnectorClient.java:63-88 | an upper-cased extension selects a loader exactly when it is one of that loader's extensions (TXT and MD the text loader, DOCX and DOTX the Word loader, CSV, HTML, PDF, PPTX and JSON their own) |
| S3.ReadData | lang-data-saas-connectors/lang-data-s3-connector/src/main/java/ai/langframework/langdatas3/S3ConnectorClient.java:57-95 | documents exactly when a loader is selected, presigning succeeds and the loader returns documents, and then they are that loader's documents for the presigned URL; otherwise null, because the catch-all turns every exception into null |
| S3.UpperCharKeepsDot | lang-data-saas-connectors/lang-data-s3-connector/src/main/java/ai/langframework/langdatas3/S3ConnectorClient.java:60-62 | upper-casing neither makes nor removes a dot |
| S3.ToUpperIdempotent | lang-data-saas-connectors/lang-data-s3-connector/src/main/java/ai/langframework/langdatas3/S3ConnectorClient.java:62 | upper-casing twice is upper-casing once |
| S3.SelectLoaderIgnoresCase | lang-data-saas-connectors/lang-data-s3-connector/src/main/java/ai/langframework/langdatas3/S3ConnectorClient.java:62 | upper-casing the extension does not change the loader chosen |
| S3.SupportedExtensionSelects | lang-data-saas-connectors/lang-data-s3-connector/src/main/java/ai/langframework/langdatas3/S3ConnectorClient.java:60-85 | a name ending in a listed extension, in any case, selects that extension's loader |
| S3.UnsupportedExtensionRejected | lang-data-saas-connectors/lang-data-s3-connector/src/main/java/ai/langframework/langdatas3/S3ConnectorClient.java:86-94 | a name ending in no listed extension gives null |
| S3.MixedCaseExample | lang-data-saas-connectors/lang-data-s3-connector/src/main/java/ai/langframework/langdatas3/S3ConnectorClient.java:62-71 | `.PdF` selects the PDF loader |
| S3.LastExtensionExample | lang-data-saas-connectors/lang-data-s3-connector/src/main/java/ai/langframework/langdatas3/S3ConnectorClient.java:60-62 | `.md.gz` selects nothing: only the text after the last dot counts |

## Left out

- Regex splitting is a parameter function (`RegexSplit`). A pattern that does not compile gives `None`. Java's regex engine itself is not modelled.
- Strings are sequences of Unicode scalar values, not Java's UTF-16 code units. Java's `length()`, `substring` and `indexOf` count code units, so for text with characters outside the Basic Multilingual Plane the model's chunk sizes, chunk edges and cursor steps differ from Java's. A surrogate pair cut in half by a chunk edge cannot be represented. The `FileSize` of a link (`url.getFile().length()`) is likewise counted in characters, not code units.
- Metadata maps are `map<string, string>`, which cannot hold the null keys or null values that Java's `HashMap` copies in `Document`'s constructor and `createDocuments` would carry along.
- Java `int` overflow of `startIndex + chunkSize` and of `endIndex - chunkOverlap` is not modelled: integers are unbounded.
- `RecursiveCharacterTextSplitter` is an unimplemented stub and is not modelled.
- Document: a Java map is mutable and shared by reference. Here metadata is a map value, so the defensive copies at construction and in `createDocuments` hold by construction. `getMetadata`'s unmodifiable view is the plain value.
- JDBC is not modelled: connections, driver loading, statement execution and `executeUpdate`'s effect on the database. The statement builders return the text and bindings they would execute, and query answers are parameters (`Answer`, the rows of `searchSimilarity`).
- Pgvector.PgvectorClient.Connected: models only a connecting constructor that succeeds. A failed connection or an unsupported service prints the exception and then fails on the null connection.
- Pgvector.PgvectorClient.AddDocuments: does not model an embedding or insert that throws mid-loop. The source catches it and stops with the inserts already made.
- Pgvector.PgvectorClient.SearchSimilarity: does not model an exception while reading the rows (null is returned then), nor null values in the `text` or `vector` columns.
- `getNearestNeighborsAsMap` (`PgvectorConnectorClient.java`, lines 206-226) is left out: it only copies result-set rows into maps.
- Embeddings are `real` sequences from parameter functions. The OpenAI and Cohere clients, `float` rounding and null `Float` elements are not modelled. The `PGvector` wrapper is the vector value itself.
- Logging, `printStackTrace` and `System.out` output are not modelled.
- Csv.ReadData: the CSV parser is a parameter (`Parse`).
  - Opening the file or URL, a malformed URL and header reading collapse into `Unreadable`.
  - `record.get(header)` is modelled by column position, which assumes distinct header names.
  - `getRecordNumber()` is taken as the one-based position of the record.
- S3: presigned URL generation and the loaders themselves are parameters. Each may fail (`None`), standing for a missing S3 client, an SDK exception, or a loader that throws or returns null. Why they fail is not modelled.
- JavaStrings.ToUpper: covers `a`-`z` and the two other characters whose upper case is an ASCII letter (`ſ` and `ı`). Every other character is kept. That is enough for matching the listed extensions, but it is not full Unicode case mapping, and the locale is ignored.
- The `*Connector` façade classes, `Config`, and the other loaders, scrapers and vector stores are not part of this model.
