/**
 * The generic JDBC client: the statement text and parameter order of inserts,
 * updates and deletes, and how query answers are shaped into lists of rows.
 * What the database answers is a parameter (an `Answer`); preparing and
 * executing statements is not modelled.
 */
module DatabaseSql {
  import opened Wrappers
  import opened JavaStrings
  import opened SqlText

  /** The exceptions these operations let escape. */
  datatype ClientError =
    | StringIndexOutOfBounds  // `setLength` with a negative length: the column map was empty
    | SqlFailure              // an SQLException from the database

  // ---------------------------------------------------------------------------
  // insertIntoTable
  // ---------------------------------------------------------------------------

  /** The literal `insertIntoTable` closes the column list with. */
  lemma ValuesLiteral()
    ensures ") VALUES (" == ")" + " VALUES ("
  {
  }

  /**
   * `insertIntoTable`: an empty column map fails in the chop, before any
   * statement exists; otherwise the insert text for the map's keys, with
   * parameter k bound to the k-th value.
   */
  method InsertIntoTable<V>(tableName: string, columnValues: Columns<V>) returns (r: Result<Statement<V>, ClientError>)
    ensures r.Failure? <==> |columnValues| == 0
    ensures r.Failure? ==> r.error == StringIndexOutOfBounds
    ensures r.Success? ==> r.value.sql == InsertText(tableName, ColumnNames(columnValues))
    ensures r.Success? ==> r.value.bindings == Positional(ColumnValues(columnValues))
  {
    var columns, values := "", "";
    ghost var names := ColumnNames(columnValues);
    ghost var marks := Placeholders(|names|);
    for i := 0 to |columnValues|
      invariant columns == "" + Terminated(names[..i], ", ")
      invariant values == "" + Terminated(marks[..i], ", ")
    {
      BuilderStep("", names, i);
      BuilderStep("", marks, i);
      columns := columns + columnValues[i].0 + ", ";
      values := values + "?, ";
    }
    assert names[..|names|] == names && marks[..|names|] == marks;
    BuilderChop("", names, columns);
    BuilderChop("", marks, values);
    var choppedColumns := SetLength(columns, |columns| - 2);
    var choppedValues := SetLength(values, |values| - 2);
    if choppedColumns.None? || choppedValues.None? {
      return Failure(StringIndexOutOfBounds);
    }
    var query := "INSERT INTO " + tableName + " (" + choppedColumns.value + ") VALUES (" + choppedValues.value + ")";
    InsertIntoTableText(tableName, names, choppedColumns.value, choppedValues.value);
    var bindings := BindAll(ColumnValues(columnValues));
    return Success(Statement(query, bindings));
  }

  /** The query `insertIntoTable` assembles from its two chopped builders. */
  lemma InsertIntoTableText(tableName: string, names: seq<string>, columns: string, values: string)
    requires columns == Join(names, ", ") && values == Join(Placeholders(|names|), ", ")
    ensures "INSERT INTO " + tableName + " (" + columns + ") VALUES (" + values + ")" == InsertText(tableName, names)
  {
    ValuesLiteral();
    AppendAssoc("INSERT INTO " + tableName + " (" + columns, ")", " VALUES (");
  }

  /**
   * A successful `insertIntoTable` has as many placeholders as bound
   * parameters, when neither the table name nor a key holds a `?`.
   */
  lemma InsertIntoTableParameters<V>(tableName: string, columnValues: Columns<V>)
    requires '?' !in tableName && forall i :: 0 <= i < |columnValues| ==> '?' !in columnValues[i].0
    ensures CountChar(InsertText(tableName, ColumnNames(columnValues)), '?')
              == |Positional(ColumnValues(columnValues)).Keys|
  {
    InsertPlaceholders(tableName, ColumnNames(columnValues));
    PositionalSize(ColumnValues(columnValues));
  }

  // ---------------------------------------------------------------------------
  // updateRecord
  // ---------------------------------------------------------------------------

  /** "key = ?" for each key, in map order. */
  function Assignments(names: seq<string>): (assignments: seq<string>)
    ensures |assignments| == |names|
    ensures forall i :: 0 <= i < |names| ==> assignments[i] == names[i] + " = ?"
  {
    seq(|names|, i requires 0 <= i < |names| => names[i] + " = ?")
  }

  /** The update statement for a non-empty key list. */
  function UpdateText(tableName: string, names: seq<string>, condition: string): string {
    "UPDATE " + tableName + " SET " + Join(Assignments(names), ", ") + " WHERE " + condition
  }

  /**
   * `updateRecord`: an empty map fails in the chop; otherwise each key is set
   * to a parameter, bound in key order, and the condition is appended verbatim.
   */
  method UpdateRecord<V>(tableName: string, updatedValues: Columns<V>, condition: string)
    returns (r: Result<Statement<V>, ClientError>)
    ensures r.Failure? <==> |updatedValues| == 0
    ensures r.Failure? ==> r.error == StringIndexOutOfBounds
    ensures r.Success? ==> r.value.sql == UpdateText(tableName, ColumnNames(updatedValues), condition)
    ensures r.Success? ==> r.value.bindings == Positional(ColumnValues(updatedValues))
  {
    var setClause := "";
    ghost var assignments := Assignments(ColumnNames(updatedValues));
    for i := 0 to |updatedValues|
      invariant setClause == "" + Terminated(assignments[..i], ", ")
    {
      BuilderStep("", assignments, i);
      assert " = ?, " == " = ?" + ", ";
      AppendAssoc(setClause + updatedValues[i].0, " = ?", ", ");
      setClause := setClause + updatedValues[i].0 + " = ?, ";
    }
    assert assignments[..|assignments|] == assignments;
    BuilderChop("", assignments, setClause);
    var chopped := SetLength(setClause, |setClause| - 2);
    if chopped.None? {
      return Failure(StringIndexOutOfBounds);
    }
    var query := "UPDATE " + tableName + " SET " + chopped.value + " WHERE " + condition;
    var bindings := BindAll(ColumnValues(updatedValues));
    return Success(Statement(query, bindings));
  }

  /** The number of `?` in each "key = ?" is one more than in the key. */
  lemma {:induction false} AssignmentsCount(names: seq<string>)
    requires forall i :: 0 <= i < |names| ==> '?' !in names[i]
    ensures SumCount(Assignments(names), '?') == |names|
  {
    if |names| > 0 {
      var n := |names|;
      assert Assignments(names)[..n - 1] == Assignments(names[..n - 1]);
      AssignmentsCount(names[..n - 1]);
      CountCharAbsent(names[n - 1], '?');
      CountCharAbsent(" = ", '?');
      assert CountChar("?", '?') == 1 by { assert "?"[..0] == ""; }
      assert " = ?" == " = " + "?";
      CountCharAppend(" = ", "?", '?');
      CountCharAppend(names[n - 1], " = ?", '?');
    }
  }

  /**
   * A successful `updateRecord` has as many placeholders as bound parameters,
   * when neither the table name, a key nor the condition holds a `?`.
   */
  lemma UpdateRecordParameters<V>(tableName: string, updatedValues: Columns<V>, condition: string)
    requires '?' !in tableName && '?' !in condition
    requires forall i :: 0 <= i < |updatedValues| ==> '?' !in updatedValues[i].0
    ensures CountChar(UpdateText(tableName, ColumnNames(updatedValues), condition), '?')
              == |Positional(ColumnValues(updatedValues)).Keys|
  {
    var names := ColumnNames(updatedValues);
    var a := "UPDATE " + tableName + " SET ";
    var b := Join(Assignments(names), ", ");
    AssignmentsCount(names);
    CountCharJoin(Assignments(names), ", ", '?');
    CountCharAbsent("UPDATE ", '?');
    CountCharAbsent(tableName, '?');
    CountCharAbsent(" SET ", '?');
    CountCharAbsent(" WHERE ", '?');
    CountCharAbsent(condition, '?');
    CountCharAppend("UPDATE ", tableName, '?');
    CountCharAppend("UPDATE " + tableName, " SET ", '?');
    CountCharAppend(a, b, '?');
    CountCharAppend(a + b, " WHERE ", '?');
    CountCharAppend(a + b + " WHERE ", condition, '?');
    PositionalSize(ColumnValues(updatedValues));
  }

  // ---------------------------------------------------------------------------
  // deleteRecord
  // ---------------------------------------------------------------------------

  /** `deleteRecord`: the condition is appended verbatim, after the table name. */
  function DeleteRecord(tableName: string, condition: string): (query: string)
    ensures |query| == |"DELETE FROM "| + |tableName| + |" WHERE "| + |condition|
    ensures query[..|"DELETE FROM "|] == "DELETE FROM "
    ensures query[|"DELETE FROM "|..|"DELETE FROM "| + |tableName|] == tableName
    ensures query[|"DELETE FROM "| + |tableName|..|query| - |condition|] == " WHERE "
    ensures query[|query| - |condition|..] == condition
  {
    "DELETE FROM " + tableName + " WHERE " + condition
  }

  // ---------------------------------------------------------------------------
  // Query answers
  // ---------------------------------------------------------------------------

  /**
   * What the database does with a query: it refuses it (preparing or executing
   * throws), or answers with column names and rows, possibly throwing at the
   * `next()` that would move to the row at index `breaksAt`; `breaksAt ==
   * |rows|` is the final `next()`, the one that would report the end, throwing.
   */
  datatype Answer<V> =
    | Refused
    | Rows(columnNames: seq<string>, rows: seq<seq<V>>, breaksAt: Option<nat>)

  /** Every row has one value per column, as a JDBC result set does. */
  predicate WellFormed<V>(answer: Answer<V>) {
    answer.Rows? ==> forall i :: 0 <= i < |answer.rows| ==> |answer.rows[i]| == |answer.columnNames|
  }

  /** The rows read before the cursor throws, or all of them. */
  function CompleteRows<V>(answer: Answer<V>): (rows: seq<seq<V>>)
    requires answer.Rows?
    ensures |rows| <= |answer.rows|
    ensures rows == answer.rows[..|rows|]
    ensures answer.breaksAt.None? ==> rows == answer.rows
  {
    match answer.breaksAt
    case None => answer.rows
    case Some(k) => answer.rows[..Min(k, |answer.rows|)]
  }

  /** Whether some `next()` of the `while (next())` loop throws, the final one included. */
  predicate Breaks<V>(answer: Answer<V>) {
    answer.Rows? && answer.breaksAt.Some? && answer.breaksAt.value <= |answer.rows|
  }

  /** `getObject(1..columnCount)` on the current row. */
  method ReadRow<V>(row: seq<V>, columnCount: nat) returns (values: seq<V>)
    requires columnCount <= |row|
    ensures values == row[..columnCount]
  {
    values := [];
    for i := 1 to columnCount + 1
      invariant values == row[..i - 1]
    {
      assert row[..i] == row[..i - 1] + [row[i - 1]];
      values := values + [row[i - 1]];
    }
  }

  /**
   * The `while (next())` loop: rows are added whole, so a throw while reading
   * a row loses that row and keeps the ones before it; a throw from the final
   * `next()` keeps every row but still reports the break.
   */
  method ReadRows<V>(answer: Answer<V>) returns (rows: seq<seq<V>>, broke: bool)
    requires answer.Rows? && WellFormed(answer)
    ensures rows == CompleteRows(answer)
    ensures broke <==> Breaks(answer)
  {
    var columnCount := |answer.columnNames|;
    rows := [];
    var cursor := 0;
    while cursor < |answer.rows|
      invariant cursor <= |answer.rows|
      invariant rows == answer.rows[..cursor]
      invariant answer.breaksAt.Some? ==> cursor <= answer.breaksAt.value
      decreases |answer.rows| - cursor
    {
      if answer.breaksAt == Some(cursor) {
        return rows, true;
      }
      var row := ReadRow(answer.rows[cursor], columnCount);
      assert row == answer.rows[cursor];
      rows := rows + [row];
      cursor := cursor + 1;
      assert rows == answer.rows[..cursor];
    }
    return rows, answer.breaksAt == Some(cursor);
  }

  /**
   * `getTablesRows`: every row, or the SQLException. `getString` is None for
   * an SQL NULL, which JDBC's `getString` reports as null.
   */
  function TablesRows<V>(answer: Answer<V>, getString: V -> Option<string>)
    : (r: Result<seq<seq<Option<string>>>, ClientError>)
    requires WellFormed(answer)
    ensures r.Failure? <==> answer.Refused? || Breaks(answer)
    ensures r.Success? ==> |r.value| == |answer.rows|
    ensures r.Success? ==> forall i :: 0 <= i < |r.value| ==> |r.value[i]| == |answer.columnNames|
    ensures r.Success? ==> forall i, j :: 0 <= i < |r.value| && 0 <= j < |r.value[i]| ==>
              r.value[i][j] == getString(answer.rows[i][j])
  {
    if answer.Refused? || Breaks(answer) then Failure(SqlFailure)
    else Success(seq(|answer.rows|, i requires 0 <= i < |answer.rows| =>
                   seq(|answer.rows[i]|, j requires 0 <= j < |answer.rows[i]| => getString(answer.rows[i][j]))))
  }

  /**
   * `getTablesRows`: the query it issues, and each row's values as strings
   * (None for an SQL NULL), one per column, in row order; an SQLException
   * propagates.
   */
  method GetTablesRows<V>(tableName: string, answer: Answer<V>, getString: V -> Option<string>)
    returns (query: string, r: Result<seq<seq<Option<string>>>, ClientError>)
    requires WellFormed(answer)
    ensures query == "select * from " + tableName
    ensures r == TablesRows(answer, getString)
  {
    query := "select * from " + tableName;
    if answer.Refused? {
      return query, Failure(SqlFailure);
    }
    var rows, broke := ReadRows(answer);
    if broke {
      return query, Failure(SqlFailure);
    }
    assert rows == answer.rows;
    var result: seq<seq<Option<string>>> := [];
    for n := 0 to |rows|
      invariant |result| == n
      invariant forall i :: 0 <= i < n ==> result[i] == seq(|rows[i]|, j requires 0 <= j < |rows[i]| => getString(rows[i][j]))
    {
      var strings: seq<Option<string>> := [];
      for k := 0 to |rows[n]|
        invariant strings == seq(k, j requires 0 <= j < k => getString(rows[n][j]))
      {
        strings := strings + [getString(rows[n][k])];
      }
      result := result + [strings];
    }
    assert result == TablesRows(answer, getString).value;
    return query, Success(result);
  }

  /** A cell of `executeAndPrintQuery`'s result: a column name or a value. */
  datatype Cell<V> = Name(name: string) | Value(value: V)

  function Names<V>(columnNames: seq<string>): (cells: seq<Cell<V>>)
    ensures |cells| == |columnNames| && forall i :: 0 <= i < |columnNames| ==> cells[i] == Name(columnNames[i])
  {
    seq(|columnNames|, i requires 0 <= i < |columnNames| => Name(columnNames[i]))
  }

  function Values<V>(row: seq<V>): (cells: seq<Cell<V>>)
    ensures |cells| == |row| && forall i :: 0 <= i < |row| ==> cells[i] == Value(row[i])
  {
    seq(|row|, i requires 0 <= i < |row| => Value(row[i]))
  }

  /**
   * `executeAndPrintQuery`: nothing when the query is refused; otherwise the
   * column names, then every row read before the cursor throws (if it does).
   */
  function QueryResult<V>(answer: Answer<V>): (result: seq<seq<Cell<V>>>)
    requires WellFormed(answer)
    ensures answer.Refused? <==> |result| == 0
    ensures answer.Rows? ==> result[0] == Names(answer.columnNames)
    ensures answer.Rows? ==> |result| == 1 + |CompleteRows(answer)|
    ensures answer.Rows? ==> forall i :: 1 <= i < |result| ==> result[i] == Values(answer.rows[i - 1])
  {
    if answer.Refused? then []
    else
      var rows := CompleteRows(answer);
      [Names(answer.columnNames)] + seq(|rows|, i requires 0 <= i < |rows| => Values(rows[i]))
  }

  /** `executeAndPrintQuery`: the SQLException is caught and the result so far returned. */
  method ExecuteAndPrintQuery<V>(answer: Answer<V>) returns (result: seq<seq<Cell<V>>>)
    requires WellFormed(answer)
    ensures result == QueryResult(answer)
  {
    result := [];
    if answer.Refused? {
      return;
    }
    var columnNames: seq<Cell<V>> := [];
    for i := 1 to |answer.columnNames| + 1
      invariant columnNames == Names(answer.columnNames[..i - 1])
    {
      columnNames := columnNames + [Name(answer.columnNames[i - 1])];
    }
    assert answer.columnNames[..|answer.columnNames|] == answer.columnNames;
    result := result + [columnNames];
    var rows, broke := ReadRows(answer);
    for n := 0 to |rows|
      invariant result == [columnNames] + seq(n, i requires 0 <= i < n => Values(rows[i]))
    {
      result := result + [Values(rows[n])];
    }
  }

  /**
   * Every row after the first has one entry per column, and nothing is lost
   * when the cursor does not throw.
   */
  lemma QueryResultShape<V>(answer: Answer<V>)
    requires WellFormed(answer) && answer.Rows?
    ensures forall i :: 1 <= i < |QueryResult(answer)| ==> |QueryResult(answer)[i]| == |answer.columnNames|
    ensures !Breaks(answer) ==> |QueryResult(answer)| == 1 + |answer.rows|
  {
    var result := QueryResult(answer);
    forall i | 1 <= i < |result| ensures |result[i]| == |answer.columnNames| {
      assert |answer.rows[i - 1]| == |answer.columnNames|;
    }
  }
}
