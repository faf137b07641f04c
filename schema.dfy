/** The schema store's entities: each table node's `data` record of src/App.jsx
    (table name, columns, column-oriented cell values, primary key and foreign keys)
    together with the node id. */
module Schema {
  import opened Strings

  /** The four column types the editor offers. */
  datatype SqlType = Text | Integer | Real | Boolean

  /** The type's name as it is stored and emitted. */
  function TypeName(ty: SqlType): (r: string)
    ensures |r| > 0 && forall i :: 0 <= i < |r| ==> 'A' <= r[i] <= 'Z'
  {
    match ty
    case Text => "TEXT"
    case Integer => "INTEGER"
    case Real => "REAL"
    case Boolean => "BOOLEAN"
  }

  datatype Column = Column(name: string, ty: SqlType)

  /** A link stored on the referencing (child) table: its `column` refers to
      `refColumn` of the table whose node id is `refTableId`. */
  datatype ForeignKey = ForeignKey(column: string, refTableId: string, refColumn: string)

  /** A table node. `values[i]` holds the cells of column `i`, one per row,
      always as text; `primaryKey` is a column name or "" for none. */
  datatype Table = Table(
    id: string,
    name: string,
    columns: seq<Column>,
    values: seq<seq<string>>,
    primaryKey: string,
    foreignKeys: seq<ForeignKey>)

  /** One value sequence per column. */
  predicate Shaped(t: Table) {
    |t.columns| == |t.values|
  }

  /** The row count by convention: the length of the first value sequence. */
  function RowCount(t: Table): nat {
    if |t.values| == 0 then 0 else |t.values[0]|
  }

  /** One value sequence per column, all of the same length. */
  predicate Rectangular(t: Table) {
    Shaped(t) && forall i :: 0 <= i < |t.values| ==> |t.values[i]| == RowCount(t)
  }

  function ColumnNames(cols: seq<Column>): (r: seq<string>)
    ensures |r| == |cols| && forall i :: 0 <= i < |cols| ==> r[i] == cols[i].name
  {
    if cols == [] then [] else [cols[0].name] + ColumnNames(cols[1..])
  }

  /** Array.prototype.indexOf: the first position of `x`, or -1. */
  function IndexOf(names: seq<string>, x: string): (r: int)
    ensures -1 <= r < |names|
    ensures r >= 0 ==> names[r] == x && forall k :: 0 <= k < r ==> names[k] != x
    ensures r == -1 <==> x !in names
  {
    if names == [] then -1
    else if names[0] == x then 0
    else
      var k := IndexOf(names[1..], x);
      if k == -1 then -1 else k + 1
  }

  /** The position of the primary-key column, or -1 when there is no primary key
      or it names no column (`primaryKey ? columns.indexOf(primaryKey) : -1`). */
  function KeyIndex(t: Table): (r: int)
    ensures -1 <= r < |t.columns|
    ensures r >= 0 ==> t.primaryKey != "" && t.columns[r].name == t.primaryKey
    ensures r == -1 <==> t.primaryKey == "" || t.primaryKey !in ColumnNames(t.columns)
  {
    if t.primaryKey == "" then -1 else IndexOf(ColumnNames(t.columns), t.primaryKey)
  }

  /** The primary key, when set, names a column. */
  predicate KeyResolves(t: Table) {
    t.primaryKey == "" || t.primaryKey in ColumnNames(t.columns)
  }
}
