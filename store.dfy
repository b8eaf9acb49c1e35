/** The database side of roster-parser.py: the columns `create_database`
    (lines 42-55) gives the `roster` table and the tuples `insert_data`
    (lines 58-68) sends to it. The database itself is represented by the
    statements it is sent, in order. */
module Store {
  import opened Tables

  /** The column sqlite numbers itself (`id INTEGER PRIMARY KEY`). */
  const KeyColumn := "id"

  datatype Statement =
    /** `DROP TABLE IF EXISTS roster` then `CREATE TABLE roster (id ..., <columns> TEXT)`. */
    | CreateRoster(columns: seq<string>)
    /** `INSERT INTO roster (<columns>) VALUES (<values>)`. */
    | InsertRow(columns: seq<string>, values: seq<string>)

  predicate IsNotKey(c: string) {
    c != KeyColumn
  }

  /** `[col for col in columns if col != 'id']`. */
  function NonKeyColumns(columns: seq<string>): (r: seq<string>)
    ensures |r| <= |columns|
    ensures forall c :: c in r <==> c in columns && c != KeyColumn
  {
    FilterMembershipAll(columns);
    Filter(IsNotKey, columns)
  }

  lemma FilterMembershipAll(columns: seq<string>)
    ensures forall c :: c in Filter(IsNotKey, columns) <==> c in columns && IsNotKey(c)
  {
    forall c {
      FilterMembership(IsNotKey, columns, c);
    }
  }

  /** Lines 42-55: the statement that (re)creates the table for the columns
      of the first cleaned file. */
  function CreateDatabase(columns: seq<string>): (s: Statement)
    ensures s.CreateRoster? && KeyColumn !in s.columns
    ensures forall c :: c in s.columns <==> c in columns && c != KeyColumn
  {
    CreateRoster(NonKeyColumns(columns))
  }

  /** `tuple(row.drop('id').fillna(''))`: the row's cells in column order,
      the `id` cell left out and a missing cell sent as "". */
  function RowValues(columns: seq<string>, row: Row): (vs: seq<string>)
    requires forall c :: c in columns ==> c in row
    ensures |vs| <= |columns|
  {
    if columns == [] then []
    else
      var rest := RowValues(columns[1..], row);
      if columns[0] == KeyColumn then rest else [Coalesce(row[columns[0]])] + rest
  }

  /** The values line up with the insert's column list: the `i`-th value is
      the cell of the `i`-th non-key column, missing cells read as "". */
  lemma {:induction false} RowValuesAligned(columns: seq<string>, row: Row)
    requires forall c :: c in columns ==> c in row
    ensures |RowValues(columns, row)| == |NonKeyColumns(columns)|
    ensures forall i :: 0 <= i < |NonKeyColumns(columns)| ==>
              RowValues(columns, row)[i] == Coalesce(row[NonKeyColumns(columns)[i]])
  {
    if columns != [] {
      RowValuesAligned(columns[1..], row);
      assert NonKeyColumns(columns) ==
        if columns[0] == KeyColumn then NonKeyColumns(columns[1..])
        else [columns[0]] + NonKeyColumns(columns[1..]);
    }
  }

  /** The statement `insert_data` sends for one row of a table with the given
      columns. */
  function InsertStatement(columns: seq<string>, row: Row): (s: Statement)
    requires forall c :: c in columns ==> c in row
    ensures s.InsertRow? && |s.values| == |s.columns|
    ensures forall c :: c in s.columns <==> c in columns && c != KeyColumn
    ensures forall i :: 0 <= i < |s.columns| ==> s.values[i] == Coalesce(row[s.columns[i]])
  {
    RowValuesAligned(columns, row);
    InsertRow(NonKeyColumns(columns), RowValues(columns, row))
  }

  /** All the statements `insert_data` sends for a table, one per row in
      row order. */
  function InsertStatements(t: Table): (ss: seq<Statement>)
    requires WellFormed(t)
    ensures |ss| == |t.rows|
    decreases |t.rows|
  {
    if t.rows == [] then []
    else
      var init := Table(t.header, t.rows[..|t.rows| - 1]);
      InsertStatements(init) + [InsertStatement(t.header, t.rows[|t.rows| - 1])]
  }

  lemma {:induction false} InsertStatementsAt(t: Table, k: nat)
    requires WellFormed(t) && k < |t.rows|
    ensures InsertStatements(t)[k] == InsertStatement(t.header, t.rows[k])
    decreases |t.rows|
  {
    var init := Table(t.header, t.rows[..|t.rows| - 1]);
    if k < |t.rows| - 1 {
      InsertStatementsAt(init, k);
    }
  }

  /** `insert_data(conn, data)`: one insert per row, in row order. */
  method InsertData(data: Table) returns (sent: seq<Statement>)
    requires WellFormed(data)
    ensures sent == InsertStatements(data)
    ensures forall k :: 0 <= k < |sent| ==> sent[k] == InsertStatement(data.header, data.rows[k])
  {
    sent := [];
    var k := 0;
    while k < |data.rows|
      invariant 0 <= k <= |data.rows|
      invariant sent == InsertStatements(Table(data.header, data.rows[..k]))
    {
      var row := data.rows[k];
      assert data.rows[..k + 1][..k] == data.rows[..k];
      sent := sent + [InsertStatement(data.header, row)];
      k := k + 1;
    }
    assert data.rows[..k] == data.rows;
    forall j | 0 <= j < |sent| ensures sent[j] == InsertStatement(data.header, data.rows[j]) {
      InsertStatementsAt(data, j);
    }
  }
}
