/**
 * What the SQL clients hand to JDBC: statement text plus the parameters bound
 * to its `?` placeholders, and the column maps the statements are built from.
 */
module SqlText {
  import opened JavaStrings
  import opened Wrappers

  /**
   * A column map in its iteration order. Both clients iterate `keySet()` or
   * `entrySet()` for the text and `values()` for the bindings, which visit the
   * entries in the same order.
   */
  type Columns<V> = seq<(string, V)>

  /** A prepared statement: its text and `setObject(index, value)` calls, by 1-based index. */
  datatype Statement<V> = Statement(sql: string, bindings: map<int, V>)

  function ColumnNames<V>(columns: Columns<V>): (names: seq<string>)
    ensures |names| == |columns| && forall i :: 0 <= i < |columns| ==> names[i] == columns[i].0
  {
    seq(|columns|, i requires 0 <= i < |columns| => columns[i].0)
  }

  function ColumnValues<V>(columns: Columns<V>): (values: seq<V>)
    ensures |values| == |columns| && forall i :: 0 <= i < |columns| ==> values[i] == columns[i].1
  {
    seq(|columns|, i requires 0 <= i < |columns| => columns[i].1)
  }

  /** Parameter k (from 1) bound to the k-th value, and nothing else bound. */
  function Positional<V>(values: seq<V>): (bindings: map<int, V>)
    ensures forall k :: k in bindings <==> 1 <= k <= |values|
    ensures forall k :: 1 <= k <= |values| ==> bindings[k] == values[k - 1]
  {
    if |values| == 0 then map[]
    else Positional(values[..|values| - 1])[|values| := values[|values| - 1]]
  }

  /** The `setObject(parameterIndex++, value)` loop over `values()`. */
  method BindAll<V>(values: seq<V>) returns (bindings: map<int, V>)
    ensures bindings == Positional(values)
  {
    bindings := map[];
    var parameterIndex := 1;
    for i := 0 to |values|
      invariant parameterIndex == i + 1
      invariant bindings == Positional(values[..i])
    {
      bindings := bindings[parameterIndex := values[i]];
      parameterIndex := parameterIndex + 1;
    }
    assert values[..|values|] == values;
  }

  /** `n` placeholders. */
  function Placeholders(n: nat): seq<string> {
    Repeat("?", n)
  }

  /** The insert statement for a non-empty column list: names in order, one placeholder per name. */
  function InsertText(tableName: string, names: seq<string>): string {
    "INSERT INTO " + tableName + " (" + Join(names, ", ") + ")" + " VALUES (" + Join(Placeholders(|names|), ", ") + ")"
  }

  /**
   * When neither the table name nor a column name holds a `?`, the insert
   * statement has exactly one placeholder per column.
   */
  lemma InsertPlaceholders(tableName: string, names: seq<string>)
    requires '?' !in tableName && forall i :: 0 <= i < |names| ==> '?' !in names[i]
    ensures CountChar(InsertText(tableName, names), '?') == |names|
  {
    var a := "INSERT INTO " + tableName + " (";
    var b := Join(names, ", ");
    var c := " VALUES (";
    var d := Join(Placeholders(|names|), ", ");
    CountCharAppend("INSERT INTO ", tableName, '?');
    CountCharAppend("INSERT INTO " + tableName, " (", '?');
    CountCharAbsent("INSERT INTO ", '?');
    CountCharAbsent(tableName, '?');
    CountCharAbsent(" (", '?');
    CountCharJoin(names, ", ", '?');
    SumCountAbsent(names, '?');
    CountCharAbsent(c, '?');
    CountCharJoin(Placeholders(|names|), ", ", '?');
    SumCountRepeat("?", |names|, '?');
    assert CountChar("?", '?') == 1 by { assert "?"[..0] == ""; }
    CountCharAbsent(")", '?');
    CountCharAppend(a, b, '?');
    CountCharAppend(a + b, ")", '?');
    CountCharAppend(a + b + ")", c, '?');
    CountCharAppend(a + b + ")" + c, d, '?');
    CountCharAppend(a + b + ")" + c + d, ")", '?');
  }

  // ---------------------------------------------------------------------------
  // StringBuilder loops that append "item, " and then chop the last two characters.
  // ---------------------------------------------------------------------------

  /** One more pass of such a loop over `items`. */
  lemma BuilderStep(prefix: string, items: seq<string>, i: nat)
    requires i < |items|
    ensures prefix + Terminated(items[..i + 1], ", ") == prefix + Terminated(items[..i], ", ") + items[i] + ", "
  {
    assert items[..i + 1] == items[..i] + [items[i]];
    TerminatedSnoc(items[..i], items[i], ", ");
  }

  /**
   * The chop after the loop: for a non-empty list it removes the last ", ";
   * for an empty one it removes the two characters before the list.
   */
  lemma BuilderChop(prefix: string, items: seq<string>, built: string)
    requires built == prefix + Terminated(items, ", ")
    ensures |items| == 0 ==> built == prefix
    ensures |items| > 0 ==> |built| >= 2 && built[..|built| - 2] == prefix + Join(items, ", ")
  {
    if |items| > 0 {
      TerminatedIsJoinPlusSep(items, ", ");
      assert built == (prefix + Join(items, ", ")) + ", ";
    } else {
      assert built == prefix;
    }
  }

  /** `x + (y + z) == x + y + z`, which the solver finds slowly for long concatenations. */
  lemma AppendAssoc(x: string, y: string, z: string)
    ensures x + (y + z) == x + y + z
  {
  }

  /** The bindings hold exactly one parameter per value. */
  lemma {:induction false} PositionalSize<V>(values: seq<V>)
    ensures |Positional(values).Keys| == |values|
  {
    if |values| > 0 {
      var n := |values|;
      PositionalSize(values[..n - 1]);
      assert n !in Positional(values[..n - 1]).Keys;
      assert Positional(values).Keys == Positional(values[..n - 1]).Keys + {n};
    }
  }
}
