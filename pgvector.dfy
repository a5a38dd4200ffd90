/**
 * The pgvector client: the statement text it builds for table creation,
 * inserts, indexes, nearest-neighbour queries and drops, the float-array copy,
 * and the table-name and embedding-provider guards around storing and
 * searching documents. Executing statements and computing embeddings happen
 * elsewhere: their outcomes are parameters here.
 */
module Pgvector {
  import opened Wrappers
  import opened JavaStrings
  import opened Documents
  import opened SqlText

  /** The values bound to pgvector statements. */
  datatype PgValue = Vector(components: seq<real>) | Text(text: string) | Int(n: int)

  datatype EmbeddingClientType = OpenAI | Cohere

  const DefaultEmbeddingModel: string := "text-embedding-ada-002"
  const DefaultLimit: int := 5

  // ---------------------------------------------------------------------------
  // Statement text.
  // ---------------------------------------------------------------------------

  /** "name type" for each column, in map order. */
  function ColumnDefs(columns: Columns<string>): (defs: seq<string>)
    ensures |defs| == |columns|
    ensures forall i :: 0 <= i < |columns| ==> defs[i] == columns[i].0 + " " + columns[i].1
  {
    seq(|columns|, i requires 0 <= i < |columns| => columns[i].0 + " " + columns[i].1)
  }

  /**
   * The `createTable` statement. With no columns the chop removes the " (" that
   * opened the column list instead of a trailing ", ".
   */
  function CreateTableSql(tableName: string, columns: Columns<string>): string {
    if |columns| == 0 then "CREATE TABLE " + tableName + ", PRIMARY KEY (id))"
    else "CREATE TABLE " + tableName + " (" + Join(ColumnDefs(columns), ", ") + ", PRIMARY KEY (id))"
  }

  /** `createTable`: the statement it executes. */
  method CreateTable(tableName: string, columns: Columns<string>) returns (query: string)
    ensures query == CreateTableSql(tableName, columns)
  {
    var prefix := "CREATE TABLE " + tableName + " (";
    var queryBuilder := prefix;
    ghost var defs := ColumnDefs(columns);
    for i := 0 to |columns|
      invariant queryBuilder == prefix + Terminated(defs[..i], ", ")
    {
      BuilderStep(prefix, defs, i);
      queryBuilder := queryBuilder + columns[i].0 + " " + columns[i].1 + ", ";
    }
    assert defs[..|columns|] == defs;
    BuilderChop(prefix, defs, queryBuilder);
    var chopped := SetLength(queryBuilder, |queryBuilder| - 2);
    queryBuilder := chopped.value + ", PRIMARY KEY (id))";
    return queryBuilder;
  }

  /**
   * The `insertData` statement text. With no columns both chops remove the
   * opening " (" and the text has no column list at all.
   */
  function InsertDataSql(tableName: string, names: seq<string>): string {
    if |names| == 0 then "INSERT INTO " + tableName + ")" + " VALUES" + ")"
    else InsertText(tableName, names)
  }

  /** The text loop of `insertData`, over the column names in map order. */
  method InsertQuery(tableName: string, names: seq<string>) returns (query: string)
    ensures query == InsertDataSql(tableName, names)
  {
    var queryPrefix, valuePrefix := "INSERT INTO " + tableName + " (", " VALUES (";
    var queryBuilder, valueBuilder := queryPrefix, valuePrefix;
    ghost var marks := Placeholders(|names|);
    for i := 0 to |names|
      invariant queryBuilder == queryPrefix + Terminated(names[..i], ", ")
      invariant valueBuilder == valuePrefix + Terminated(marks[..i], ", ")
    {
      BuilderStep(queryPrefix, names, i);
      BuilderStep(valuePrefix, marks, i);
      queryBuilder := queryBuilder + names[i] + ", ";
      valueBuilder := valueBuilder + "?, ";
    }
    assert names[..|names|] == names && marks[..|names|] == marks;
    BuilderChop(queryPrefix, names, queryBuilder);
    BuilderChop(valuePrefix, marks, valueBuilder);
    var choppedQuery := SetLength(queryBuilder, |queryBuilder| - 2);
    var choppedValues := SetLength(valueBuilder, |valueBuilder| - 2);
    InsertAssemble(tableName, names, choppedQuery.value, choppedValues.value);
    query := choppedQuery.value + ")" + choppedValues.value + ")";
  }

  /** The two chopped builders and the closing parentheses of `insertData`. */
  lemma InsertAssemble(tableName: string, names: seq<string>, columns: string, values: string)
    requires |names| == 0 ==> columns == ("INSERT INTO " + tableName + " (")[..|"INSERT INTO " + tableName + " ("| - 2]
    requires |names| == 0 ==> values == " VALUES ("[..|" VALUES ("| - 2]
    requires |names| > 0 ==> columns == "INSERT INTO " + tableName + " (" + Join(names, ", ")
    requires |names| > 0 ==> values == " VALUES (" + Join(Placeholders(|names|), ", ")
    ensures columns + ")" + values + ")" == InsertDataSql(tableName, names)
  {
    if |names| == 0 {
      var head := "INSERT INTO " + tableName;
      assert (head + " (")[..|head + " ("| - 2] == head;
      assert " VALUES ("[..7] == " VALUES";
    } else {
      var front := "INSERT INTO " + tableName + " (" + Join(names, ", ") + ")";
      AppendAssoc(front, " VALUES (", Join(Placeholders(|names|), ", "));
    }
  }


  /**
   * `insertData`: the prepared statement and its bindings, one per column, in
   * map order (the key loop builds the text, the value loop binds).
   */
  method InsertData<V>(tableName: string, columnValues: Columns<V>) returns (statement: Statement<V>)
    ensures statement.sql == InsertDataSql(tableName, ColumnNames(columnValues))
    ensures statement.bindings == Positional(ColumnValues(columnValues))
  {
    var query := InsertQuery(tableName, ColumnNames(columnValues));
    var bindings := BindAll(ColumnValues(columnValues));
    return Statement(query, bindings);
  }

  /** `addIndex`: the `WITH` clause is added exactly when options are given and not empty. */
  function AddIndexSql(tableName: string, indexType: string, indexingMethod: string, additionalOptions: Option<string>)
    : (query: string)
    ensures var base := "CREATE INDEX ON " + tableName + " USING " + indexType + " (" + indexingMethod + ")";
      && (additionalOptions.Some? && |additionalOptions.value| > 0 ==>
            query == base + " WITH (" + additionalOptions.value + ")")
      && (additionalOptions.None? || |additionalOptions.value| == 0 ==> query == base)
  {
    var query := "CREATE INDEX ON " + tableName + " USING " + indexType + " (" + indexingMethod + ")";
    if additionalOptions.Some? && |additionalOptions.value| > 0 then query + " WITH (" + additionalOptions.value + ")"
    else query
  }

  /**
   * The options can be read back from an `addIndex` statement: after the
   * fixed `CREATE INDEX ON ... USING ... (...)` part comes either nothing or
   * ` WITH (`, the options verbatim and a closing parenthesis.
   */
  lemma AddIndexOptionsReadBack(tableName: string, indexType: string, indexingMethod: string,
                                additionalOptions: Option<string>)
    ensures var query := AddIndexSql(tableName, indexType, indexingMethod, additionalOptions);
      var base := "CREATE INDEX ON " + tableName + " USING " + indexType + " (" + indexingMethod + ")";
      && |base| <= |query| && query[..|base|] == base
      && (|query| > |base| <==> additionalOptions.Some? && |additionalOptions.value| > 0)
      && (|query| > |base| ==>
            && |base| + |" WITH ("| < |query|
            && query[|base|..|base| + |" WITH ("|] == " WITH ("
            && query[|base| + |" WITH ("|..|query| - 1] == additionalOptions.value
            && query[|query| - 1] == ')')
  {
    var query := AddIndexSql(tableName, indexType, indexingMethod, additionalOptions);
    var base := "CREATE INDEX ON " + tableName + " USING " + indexType + " (" + indexingMethod + ")";
    if additionalOptions.Some? && |additionalOptions.value| > 0 {
      var with := " WITH (";
      assert query == base + with + additionalOptions.value + ")";
      assert query[..|base|] == base;
      assert query[|base|..|base| + |with|] == with;
      assert query[|base| + |with|..|query| - 1] == additionalOptions.value;
    } else {
      assert query == base;
    }
  }

  /** The statement without its `WITH` clause has one parenthesis of each kind. */
  lemma AddIndexBaseCounts(tableName: string, indexType: string, indexingMethod: string)
    requires NoParens(tableName) && NoParens(indexType) && NoParens(indexingMethod)
    ensures var base := AddIndexSql(tableName, indexType, indexingMethod, None);
      CountChar(base, '(') == 1 && CountChar(base, ')') == 1
  {
    OpenCounts();
    var head, using := "CREATE INDEX ON ", " USING ";
    CountCharAbsent(head, '('); CountCharAbsent(head, ')');
    CountCharAbsent(tableName, '('); CountCharAbsent(tableName, ')');
    CountCharAbsent(using, '('); CountCharAbsent(using, ')');
    CountCharAbsent(indexType, '('); CountCharAbsent(indexType, ')');
    CountCharAbsent(indexingMethod, '('); CountCharAbsent(indexingMethod, ')');
    var p1 := head + tableName;
    CountCharAppend(head, tableName, '('); CountCharAppend(head, tableName, ')');
    var p2 := p1 + using;
    CountCharAppend(p1, using, '('); CountCharAppend(p1, using, ')');
    var p3 := p2 + indexType;
    CountCharAppend(p2, indexType, '('); CountCharAppend(p2, indexType, ')');
    var p4 := p3 + " (";
    CountCharAppend(p3, " (", '('); CountCharAppend(p3, " (", ')');
    var p5 := p4 + indexingMethod;
    CountCharAppend(p4, indexingMethod, '('); CountCharAppend(p4, indexingMethod, ')');
    CountCharAppend(p5, ")", '('); CountCharAppend(p5, ")", ')');
  }

  /** A `WITH (options)` clause over parenthesis-free options is balanced. */
  lemma WithClauseCounts(options: string)
    requires NoParens(options)
    ensures CountChar(" WITH (" + options + ")", '(') == 1 && CountChar(" WITH (" + options + ")", ')') == 1
  {
    OpenCounts();
    var with := " WITH";
    CountCharAbsent(with, '('); CountCharAbsent(with, ')');
    CountCharAbsent(options, '('); CountCharAbsent(options, ')');
    assert " WITH (" == with + " (";
    CountCharAppend(with, " (", '('); CountCharAppend(with, " (", ')');
    CountCharAppend(" WITH (", options, '('); CountCharAppend(" WITH (", options, ')');
    CountCharAppend(" WITH (" + options, ")", '('); CountCharAppend(" WITH (" + options, ")", ')');
  }

  /**
   * With parenthesis-free table name, index type, method and options, every
   * `addIndex` statement has as many opening as closing parentheses, with or
   * without its `WITH` clause.
   */
  lemma AddIndexBalanced(tableName: string, indexType: string, indexingMethod: string,
                         additionalOptions: Option<string>)
    requires NoParens(tableName) && NoParens(indexType) && NoParens(indexingMethod)
    requires additionalOptions.Some? ==> NoParens(additionalOptions.value)
    ensures var query := AddIndexSql(tableName, indexType, indexingMethod, additionalOptions);
      CountChar(query, '(') == CountChar(query, ')')
  {
    var base := AddIndexSql(tableName, indexType, indexingMethod, None);
    AddIndexBaseCounts(tableName, indexType, indexingMethod);
    if additionalOptions.Some? && |additionalOptions.value| > 0 {
      var clause := " WITH (" + additionalOptions.value + ")";
      WithClauseCounts(additionalOptions.value);
      CountCharAppend(base, clause, '('); CountCharAppend(base, clause, ')');
      assert AddIndexSql(tableName, indexType, indexingMethod, additionalOptions) == base + clause;
    }
  }

  /** `getNN`: the query vector is parameter 1, the limit parameter 2. */
  function GetNN(tableName: string, queryVector: seq<real>, limit: int): (statement: Statement<PgValue>)
    ensures statement.bindings.Keys == {1, 2}
    ensures statement.bindings[1] == Vector(queryVector) && statement.bindings[2] == Int(limit)
  {
    Statement("SELECT * FROM " + tableName + " ORDER BY vector <-> " + "?" + " LIMIT " + "?",
              map[1 := Vector(queryVector), 2 := Int(limit)])
  }

  /** The nearest-neighbour query has one placeholder per bound parameter, whatever the table's name. */
  lemma GetNNParameters(tableName: string, queryVector: seq<real>, limit: int)
    requires '?' !in tableName
    ensures CountChar(GetNN(tableName, queryVector, limit).sql, '?') == |GetNN(tableName, queryVector, limit).bindings.Keys|
  {
    var select, order, lim := "SELECT * FROM ", " ORDER BY vector <-> ", " LIMIT ";
    CountCharAbsent(select, '?');
    CountCharAbsent(tableName, '?');
    CountCharAbsent(order, '?');
    CountCharAbsent(lim, '?');
    CountOne('?', '?');
    CountCharAppend(select, tableName, '?');
    CountCharAppend(select + tableName, order, '?');
    CountCharAppend(select + tableName + order, "?", '?');
    CountCharAppend(select + tableName + order + "?", lim, '?');
    CountCharAppend(select + tableName + order + "?" + lim, "?", '?');
    assert GetNN(tableName, queryVector, limit).bindings.Keys == {1, 2};
  }

  /** `deleteTable`: the fixed `DROP TABLE ` prefix followed by the table's name and nothing else. */
  function DeleteTableSql(tableName: string): (query: string)
    ensures |query| == |"DROP TABLE "| + |tableName|
    ensures query[..|"DROP TABLE "|] == "DROP TABLE " && query[|"DROP TABLE "|..] == tableName
  {
    "DROP TABLE " + tableName
  }

  // ---------------------------------------------------------------------------
  // Parentheses: the empty column map is the one case whose text is malformed.
  // ---------------------------------------------------------------------------

  lemma CountOne(x: char, c: char)
    ensures CountChar([x], c) == if x == c then 1 else 0
  {
    assert [x][..0] == [];
  }

  /** Occurrences of '(' and ')' in the fixed pieces of the statements. */
  lemma OpenCounts()
    ensures CountChar(" (", '(') == 1 && CountChar(" (", ')') == 0
    ensures CountChar(")", '(') == 0 && CountChar(")", ')') == 1
  {
    CountOne('(', '('); CountOne('(', ')'); CountOne(')', '('); CountOne(')', ')');
    CountCharAppend(" ", "(", '(');
    CountCharAppend(" ", "(", ')');
    CountCharAbsent(" ", '(');
    CountCharAbsent(" ", ')');
  }

  lemma ValuesCounts()
    ensures CountChar(" VALUES (", '(') == 1 && CountChar(" VALUES (", ')') == 0
    ensures CountChar(" VALUES", '(') == 0 && CountChar(" VALUES", ')') == 0
  {
    CountOne('(', '('); CountOne('(', ')');
    var w := " VALUES ";
    CountCharAbsent(w, '(');
    CountCharAbsent(w, ')');
    CountCharAbsent(" VALUES", '(');
    CountCharAbsent(" VALUES", ')');
    assert " VALUES (" == w + "(";
    CountCharAppend(w, "(", '(');
    CountCharAppend(w, "(", ')');
  }

  lemma PrimaryKeyCounts()
    ensures CountChar(", PRIMARY KEY (id))", '(') == 1 && CountChar(", PRIMARY KEY (id))", ')') == 2
  {
    CountOne('(', '('); CountOne('(', ')'); CountOne(')', '('); CountOne(')', ')');
    var k, id := ", PRIMARY KEY ", "id";
    CountCharAbsent(k, '(');
    CountCharAbsent(k, ')');
    CountCharAbsent(id, '(');
    CountCharAbsent(id, ')');
    assert ", PRIMARY KEY (id))" == k + "(" + id + ")" + ")";
    CountCharAppend(k, "(", '(');
    CountCharAppend(k, "(", ')');
    CountCharAppend(k + "(", id, '(');
    CountCharAppend(k + "(", id, ')');
    CountCharAppend(k + "(" + id, ")", '(');
    CountCharAppend(k + "(" + id, ")", ')');
    CountCharAppend(k + "(" + id + ")", ")", '(');
    CountCharAppend(k + "(" + id + ")", ")", ')');
  }

  /** No parenthesis anywhere in `s`. */
  predicate NoParens(s: string) {
    '(' !in s && ')' !in s
  }

  /**
   * With parenthesis-free table and column names and types, `createTable`'s
   * text has balanced parentheses exactly when the column map is not empty.
   */
  lemma CreateTableBalanced(tableName: string, columns: Columns<string>)
    requires NoParens(tableName)
    requires forall i :: 0 <= i < |columns| ==> NoParens(columns[i].0) && NoParens(columns[i].1)
    ensures var sql := CreateTableSql(tableName, columns);
      CountChar(sql, '(') == CountChar(sql, ')') <==> |columns| > 0
  {
    OpenCounts();
    PrimaryKeyCounts();
    var head := "CREATE TABLE ";
    CountCharAbsent(head, '(');
    CountCharAbsent(head, ')');
    CountCharAbsent(tableName, '(');
    CountCharAbsent(tableName, ')');
    CountCharAppend(head, tableName, '(');
    CountCharAppend(head, tableName, ')');
    var tail := ", PRIMARY KEY (id))";
    if |columns| == 0 {
      CountCharAppend(head + tableName, tail, '(');
      CountCharAppend(head + tableName, tail, ')');
    } else {
      var defs := ColumnDefs(columns);
      forall i | 0 <= i < |defs| ensures NoParens(defs[i]) {
        assert defs[i] == columns[i].0 + " " + columns[i].1;
      }
      var body := Join(defs, ", ");
      CountCharJoin(defs, ", ", '(');
      CountCharJoin(defs, ", ", ')');
      SumCountAbsent(defs, '(');
      SumCountAbsent(defs, ')');
      CountCharAppend(head + tableName, " (", '(');
      CountCharAppend(head + tableName, " (", ')');
      CountCharAppend(head + tableName + " (", body, '(');
      CountCharAppend(head + tableName + " (", body, ')');
      CountCharAppend(head + tableName + " (" + body, tail, '(');
      CountCharAppend(head + tableName + " (" + body, tail, ')');
    }
  }

  /**
   * With parenthesis-free table and column names, `insertData`'s text has
   * balanced parentheses exactly when the column map is not empty.
   */
  lemma InsertDataBalanced(tableName: string, names: seq<string>)
    requires NoParens(tableName)
    requires forall i :: 0 <= i < |names| ==> NoParens(names[i])
    ensures var sql := InsertDataSql(tableName, names);
      CountChar(sql, '(') == CountChar(sql, ')') <==> |names| > 0
  {
    OpenCounts();
    ValuesCounts();
    var head := "INSERT INTO ";
    CountCharAbsent(head, '(');
    CountCharAbsent(head, ')');
    CountCharAbsent(tableName, '(');
    CountCharAbsent(tableName, ')');
    CountCharAppend(head, tableName, '(');
    CountCharAppend(head, tableName, ')');
    var ht := head + tableName;
    if |names| == 0 {
      CountCharAppend(ht, ")", '(');
      CountCharAppend(ht, ")", ')');
      CountCharAppend(ht + ")", " VALUES", '(');
      CountCharAppend(ht + ")", " VALUES", ')');
      CountCharAppend(ht + ")" + " VALUES", ")", '(');
      CountCharAppend(ht + ")" + " VALUES", ")", ')');
    } else {
      var cols := Join(names, ", ");
      var marks := Join(Placeholders(|names|), ", ");
      CountCharJoin(names, ", ", '(');
      CountCharJoin(names, ", ", ')');
      SumCountAbsent(names, '(');
      SumCountAbsent(names, ')');
      CountCharJoin(Placeholders(|names|), ", ", '(');
      CountCharJoin(Placeholders(|names|), ", ", ')');
      SumCountAbsent(Placeholders(|names|), '(');
      SumCountAbsent(Placeholders(|names|), ')');
      var a := ht + " (";
      CountCharAppend(ht, " (", '(');
      CountCharAppend(ht, " (", ')');
      CountCharAppend(a, cols, '(');
      CountCharAppend(a, cols, ')');
      CountCharAppend(a + cols, ")", '(');
      CountCharAppend(a + cols, ")", ')');
      CountCharAppend(a + cols + ")", " VALUES (", '(');
      CountCharAppend(a + cols + ")", " VALUES (", ')');
      CountCharAppend(a + cols + ")" + " VALUES (", marks, '(');
      CountCharAppend(a + cols + ")" + " VALUES (", marks, ')');
      CountCharAppend(a + cols + ")" + " VALUES (" + marks, ")", '(');
      CountCharAppend(a + cols + ")" + " VALUES (" + marks, ")", ')');
    }
  }

  // ---------------------------------------------------------------------------
  // Embeddings to float arrays.
  // ---------------------------------------------------------------------------

  /** The element-by-element copy of one embedding into a fresh array. */
  method CopyToArray(values: seq<real>) returns (result: array<real>)
    ensures fresh(result) && result[..] == values
  {
    result := new real[|values|];
    for i := 0 to |values|
      invariant result[..i] == values[..i]
    {
      result[i] := values[i];
    }
  }

  /** `convertFirstArrayToPrimitive`: a copy of the first embedding; an empty list gives an empty array. */
  method ConvertFirstArrayToPrimitive(listOfArrays: seq<seq<real>>) returns (result: array<real>)
    ensures fresh(result)
    ensures |listOfArrays| == 0 ==> result.Length == 0
    ensures |listOfArrays| > 0 ==> result[..] == listOfArrays[0]
  {
    if |listOfArrays| > 0 {
      result := CopyToArray(listOfArrays[0]);
    } else {
      result := new real[0];
    }
  }

  // ---------------------------------------------------------------------------
  // The client.
  // ---------------------------------------------------------------------------

  /** The embedding services, as functions: `embedding(texts, model)` and `embedText(text)`. */
  datatype Embedders = Embedders(
    openAI: (seq<string>, string) -> seq<seq<real>>,
    cohere: string -> seq<real>)

  /** The embedding of `text` by the configured service, as the client converts it. */
  function Embed(embedders: Embedders, kind: EmbeddingClientType, model: string, text: string): seq<real> {
    match kind
    case OpenAI =>
      var data := embedders.openAI([text], model);
      if |data| > 0 then data[0] else []
    case Cohere => embedders.cohere(text)
  }

  /**
   * The embedding of `text` as a float array: OpenAI's answer goes through
   * `convertFirstArrayToPrimitive`, Cohere's is copied element by element.
   */
  method EmbedAsArray(embedders: Embedders, kind: EmbeddingClientType, model: string, text: string)
    returns (vector: array<real>)
    ensures fresh(vector) && vector[..] == Embed(embedders, kind, model, text)
  {
    match kind
    case OpenAI =>
      vector := ConvertFirstArrayToPrimitive(embedders.openAI([text], model));
    case Cohere =>
      vector := CopyToArray(embedders.cohere(text));
  }

  /** The insert of one document: `vector` before `text`, the order a 16-bucket HashMap iterates these two keys. */
  function DocumentColumns(vector: seq<real>, text: string): Columns<PgValue> {
    [("vector", Vector(vector)), ("text", Text(text))]
  }

  class PgvectorClient {
    var tableName: Option<string>
    var embeddingClientType: Option<EmbeddingClientType>
    var embeddingModel: string
    var limit: int

    /** The no-argument constructor: no table, no embedding service, the default model and limit. */
    constructor ()
      ensures tableName.None? && embeddingClientType.None?
      ensures embeddingModel == DefaultEmbeddingModel && limit == DefaultLimit
    {
      tableName := None;
      embeddingClientType := None;
      embeddingModel := DefaultEmbeddingModel;
      limit := DefaultLimit;
    }

    /** The connecting constructor, when the connection succeeds: the embedding service is recorded. */
    constructor Connected(embeddingClientType: EmbeddingClientType)
      ensures tableName.None? && this.embeddingClientType == Some(embeddingClientType)
      ensures embeddingModel == DefaultEmbeddingModel && limit == DefaultLimit
    {
      tableName := None;
      this.embeddingClientType := Some(embeddingClientType);
      embeddingModel := DefaultEmbeddingModel;
      limit := DefaultLimit;
    }

    method SetEmbeddingModel(embeddingModel: string)
      modifies this
      ensures this.embeddingModel == embeddingModel
      ensures tableName == old(tableName) && embeddingClientType == old(embeddingClientType) && limit == old(limit)
    {
      this.embeddingModel := embeddingModel;
    }

    method SetLimit(limit: int)
      modifies this
      ensures this.limit == limit
      ensures tableName == old(tableName) && embeddingClientType == old(embeddingClientType)
      ensures embeddingModel == old(embeddingModel)
    {
      this.limit := limit;
    }

    method SetTableName(tableName: Option<string>)
      modifies this
      ensures this.tableName == tableName
      ensures embeddingClientType == old(embeddingClientType) && embeddingModel == old(embeddingModel)
      ensures limit == old(limit)
    {
      this.tableName := tableName;
    }

    /** The inserts `addDocuments(documents)` issues: one per document, in list order. */
    function Inserts(documents: seq<Doc>, embedders: Embedders): (statements: seq<Statement<PgValue>>)
      reads this
      ensures tableName.None? || embeddingClientType.None? ==> statements == []
      ensures tableName.Some? && embeddingClientType.Some? ==> |statements| == |documents|
    {
      if tableName.None? || embeddingClientType.None? then []
      else
        var table, kind, model := tableName.value, embeddingClientType.value, embeddingModel;
        seq(|documents|, i requires 0 <= i < |documents| =>
          var vector := Embed(embedders, kind, model, documents[i].text);
          Statement(InsertText(table, ["vector", "text"]),
                    Positional([Vector(vector), Text(documents[i].text)])))
    }

    /**
     * `addDocuments`: without a table name, or without a supported embedding
     * service, the exception is caught and nothing is inserted; otherwise each
     * document's embedding and text are inserted, in list order.
     */
    method AddDocuments(documents: seq<Document>, embedders: Embedders) returns (executed: seq<Statement<PgValue>>)
      ensures executed == Inserts(Values(documents), embedders)
    {
      executed := [];
      if tableName.None? || embeddingClientType.None? {
        return;
      }
      for n := 0 to |documents|
        invariant executed == Inserts(Values(documents[..n]), embedders)
      {
        var text := documents[n].GetText();
        var vector := EmbedAsArray(embedders, embeddingClientType.value, embeddingModel, text);
        var statement := InsertData(tableName.value, DocumentColumns(vector[..], text));
        assert ColumnNames(DocumentColumns(vector[..], text)) == ["vector", "text"];
        assert ColumnValues(DocumentColumns(vector[..], text)) == [Vector(vector[..]), Text(text)];
        assert Values(documents[..n + 1]) == Values(documents[..n]) + [documents[n].Value()];
        executed := executed + [statement];
      }
      assert documents[..|documents|] == documents;
    }

    /**
     * `searchSimilarity`: the nearest-neighbour query for the query's embedding,
     * and one document per answer row, its text from the `text` column and the
     * `vectors` metadata from the `vector` column. Without a table name or an
     * embedding service the method returns null (None here) and issues no query.
     */
    method SearchSimilarity(query: string, embedders: Embedders, rows: seq<(string, string)>)
      returns (issued: Option<Statement<PgValue>>, documents: Option<seq<Document>>)
      ensures tableName.None? || embeddingClientType.None? ==> issued.None? && documents.None?
      ensures tableName.Some? && embeddingClientType.Some? ==>
                issued == Some(GetNN(tableName.value, Embed(embedders, embeddingClientType.value, embeddingModel, query), limit))
      ensures tableName.Some? && embeddingClientType.Some? ==>
                documents.Some? && Values(documents.value) == SearchResults(rows)
      ensures documents.Some? ==> forall d :: d in documents.value ==> fresh(d)
    {
      if tableName.None? || embeddingClientType.None? {
        return None, None;
      }
      var vector := EmbedAsArray(embedders, embeddingClientType.value, embeddingModel, query);
      issued := Some(GetNN(tableName.value, vector[..], limit));
      var found: seq<Document> := [];
      for n := 0 to |rows|
        invariant forall d :: d in found ==> fresh(d)
        invariant Values(found) == SearchResults(rows[..n])
      {
        var text := rows[n].0;
        var metadata := map["vectors" := rows[n].1];
        var document := new Document(Some(text), Some(metadata));
        assert rows[..n + 1][..n] == rows[..n];
        found := found + [document];
      }
      assert rows[..|rows|] == rows;
      documents := Some(found);
    }
  }

  /** The documents made from the answer rows (text, vector text) of a similarity search, in row order. */
  function SearchResults(rows: seq<(string, string)>): (docs: seq<Doc>)
    ensures |docs| == |rows|
    ensures forall i :: 0 <= i < |rows| ==> docs[i] == Doc(rows[i].0, map["vectors" := rows[i].1])
  {
    if |rows| == 0 then [] else SearchResults(rows[..|rows| - 1]) + [Doc(rows[|rows| - 1].0, map["vectors" := rows[|rows| - 1].1])]
  }
}
