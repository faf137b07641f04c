/** The SQL export: generateSQL and toBooleanSQL (src/App.jsx:216-269). Each
    table becomes a CREATE TABLE statement followed by one INSERT per row. */
module SqlExport {
  import opened Strings
  import opened Results
  import opened Schema
  import opened CellValidation
  import opened Snapshot

  // ---------------------------------------------------------------- text cells

  /** `replace(/'/g, "''")`: every single quote doubled. */
  function EscapeQuotes(s: string): string {
    if s == [] then []
    else (if s[0] == '\'' then "''" else [s[0]]) + EscapeQuotes(s[1..])
  }

  /** A character string literal as section 5.3 of ISO/IEC 9075-2 defines it:
      the text between single quotes, with each quote inside doubled. */
  function QuoteText(s: string): string {
    "'" + EscapeQuotes(s) + "'"
  }

  /** How an SQL reader takes a literal apart once its opening quote is
      consumed: text up to the first quote that is not doubled, a doubled
      quote standing for one; the result is the text and what follows the
      closing quote, or None if the literal is not closed. */
  function ReadLiteralBody(s: string): Option<(string, string)> {
    if s == [] then None
    else if s[0] == '\'' then
      if |s| >= 2 && s[1] == '\'' then
        match ReadLiteralBody(s[2..])
        case None => None
        case Some(p) => Some(("'" + p.0, p.1))
      else Some(("", s[1..]))
    else
      match ReadLiteralBody(s[1..])
      case None => None
      case Some(p) => Some(([s[0]] + p.0, p.1))
  }

  function ReadLiteral(s: string): Option<(string, string)> {
    if |s| > 0 && s[0] == '\'' then ReadLiteralBody(s[1..]) else None
  }

  lemma {:induction false} ReadEscaped(v: string, rest: string)
    requires rest == [] || rest[0] != '\''
    ensures ReadLiteralBody(EscapeQuotes(v) + "'" + rest) == Some((v, rest))
  {
    if v == [] {
      var s := "'" + rest;
      assert s[1..] == rest;
    } else {
      ReadEscaped(v[1..], rest);
      var tail := EscapeQuotes(v[1..]) + "'" + rest;
      if v[0] == '\'' {
        var s := "''" + tail;
        assert EscapeQuotes(v) + "'" + rest == s;
        assert s[2..] == tail;
        assert "'" + v[1..] == v;
      } else {
        var s := [v[0]] + tail;
        assert EscapeQuotes(v) + "'" + rest == s;
        assert s[1..] == tail;
        assert [v[0]] + v[1..] == v;
      }
    }
  }

  /** A quoted text cell reads back as exactly the stored text, and the
      reader stops right after it, whatever the text contains. */
  lemma QuoteTextRoundTrip(v: string, rest: string)
    requires rest == [] || rest[0] != '\''
    ensures ReadLiteral(QuoteText(v) + rest) == Some((v, rest))
  {
    var s := QuoteText(v) + rest;
    assert s[1..] == EscapeQuotes(v) + "'" + rest;
    ReadEscaped(v, rest);
  }

  // ---------------------------------------------------------------- boolean cells

  /** toBooleanSQL as written: the stored text lower-cased but not trimmed. */
  function BooleanSqlAsWritten(v: string): string {
    var lower := LowerAscii(v);
    if lower in ["true", "1", "yes"] then "TRUE"
    else if lower in ["false", "0", "no"] then "FALSE"
    else "NULL"
  }

  /** toBooleanSQL reading the cell the way handleUpdateCell checked it: trimmed. */
  function BooleanSql(v: string): string {
    BooleanSqlAsWritten(Trim(v))
  }

  /** The exported BOOLEAN is TRUE, FALSE or NULL; it is not NULL exactly
      when the cell is non-blank and passes the BOOLEAN check of a cell edit. */
  lemma BooleanSqlAgreesWithCheck(v: string)
    ensures BooleanSql(v) in ["TRUE", "FALSE", "NULL"]
    ensures BooleanSql(v) == "TRUE" <==> LowerAscii(Trim(v)) in ["true", "1", "yes"]
    ensures BooleanSql(v) == "FALSE" <==> LowerAscii(Trim(v)) in ["false", "0", "no"]
    ensures BooleanSql(v) != "NULL" <==> Trim(v) != "" && Accepts(Boolean, v)
  {
    var l := LowerAscii(Trim(v));
    if Trim(v) == "" {
      assert l == "";
    }
  }

  /** As written, the exported BOOLEAN is TRUE, FALSE or NULL, read from the
      untrimmed text; every cell it does not export as NULL is one the
      BOOLEAN check of a cell edit accepts, and it is already trimmed. */
  lemma BooleanSqlAsWrittenSpec(v: string)
    ensures BooleanSqlAsWritten(v) in ["TRUE", "FALSE", "NULL"]
    ensures BooleanSqlAsWritten(v) == "TRUE" <==> LowerAscii(v) in ["true", "1", "yes"]
    ensures BooleanSqlAsWritten(v) == "FALSE" <==> LowerAscii(v) in ["false", "0", "no"]
    ensures BooleanSqlAsWritten(v) != "NULL" ==> Trim(v) == v && v != "" && Accepts(Boolean, v)
  {
    var l := LowerAscii(v);
    if IsBooleanWord(l) {
      BooleanWordEdges(l);
      assert l[0] == LowerChar(v[0]) && l[|l| - 1] == LowerChar(v[|v| - 1]);
      TrimUntouched(v);
    }
  }

  /** A BOOLEAN word neither starts nor ends with white space. */
  lemma BooleanWordEdges(l: string)
    requires IsBooleanWord(l)
    ensures |l| > 0 && !IsJsSpace(l[0]) && !IsJsSpace(l[|l| - 1])
  {
  }

  /** The discrepancy of the as-written conversion: " yes" passes the BOOLEAN
      check and is stored as typed, but exports as NULL; trimmed, it is TRUE. */
  lemma PaddedBooleanExportsNull()
    ensures Accepts(Boolean, " yes")
    ensures BooleanSqlAsWritten(" yes") == "NULL"
    ensures BooleanSql(" yes") == "TRUE"
  {
    assert Trim(" yes") == "yes" by {
      TrimLeadingSpace(" yes");
      assert " yes"[1..] == "yes";
      TrimUntouched("yes");
    }
    var l := LowerAscii("yes");
    assert |l| == 3 && l[0] == 'y' && l[1] == 'e' && l[2] == 's';
    assert l == "yes";
    var m := LowerAscii(" yes");
    assert |m| == 4 && m[0] == ' ';
    assert m !in ["true", "1", "yes", "false", "0", "no"];
  }

  // ---------------------------------------------------------------- rows

  /** One cell of an INSERT: a missing or "" cell is NULL; INTEGER and REAL
      cells are emitted as stored; BOOLEAN cells become TRUE, FALSE or NULL;
      TEXT cells become quoted literals. */
  function CellSql(ty: SqlType, cell: Option<string>): string {
    match cell
    case None => "NULL"
    case Some(v) =>
      if v == "" then "NULL"
      else
        match ty
        case Integer => v
        case Real => v
        case Boolean => BooleanSqlAsWritten(v)
        case Text => QuoteText(v)
  }

  /** What each kind of cell becomes. */
  lemma CellSqlSpec(ty: SqlType, cell: Option<string>, rest: string)
    requires rest == [] || rest[0] != '\''
    ensures cell.None? || cell == Some("") ==> CellSql(ty, cell) == "NULL"
    ensures cell.Some? && cell.value != "" && (ty == Integer || ty == Real) ==> CellSql(ty, cell) == cell.value
    ensures ty == Boolean ==>
      && CellSql(ty, cell) in ["TRUE", "FALSE", "NULL"]
      && (CellSql(ty, cell) != "NULL" <==> cell.Some? && IsBooleanWord(LowerAscii(cell.value)))
      && (CellSql(ty, cell) != "NULL" ==> Accepts(Boolean, cell.value))
    ensures ty == Text && cell.Some? && cell.value != "" ==> ReadLiteral(CellSql(ty, cell) + rest) == Some((cell.value, rest))
  {
    if cell.Some? {
      BooleanSqlAsWrittenSpec(cell.value);
      QuoteTextRoundTrip(cell.value, rest);
      if cell.value == "" {
        assert LowerAscii("") == "";
      }
    }
  }

  /** `n.data.values[idx][i]`: undefined past the end of a shorter sequence. */
  function CellAt(t: Table, idx: nat, i: nat): Option<string>
    requires idx < |t.values|
  {
    if i < |t.values[idx]| then Some(t.values[idx][i]) else None
  }

  /** `Math.max(...values.map(v => v.length), 0)`. */
  function MaxRows(values: seq<seq<string>>): (r: nat)
    ensures forall i :: 0 <= i < |values| ==> |values[i]| <= r
    ensures r == 0 || exists i :: 0 <= i < |values| && |values[i]| == r
  {
    if values == [] then 0
    else
      var m := MaxRows(values[1..]);
      if |values[0]| >= m then |values[0]| else m
  }

  /** With equal-length value sequences the row count is that length. */
  lemma MaxRowsOfRectangular(t: Table)
    requires Rectangular(t)
    ensures MaxRows(t.values) == RowCount(t)
  {
    if |t.values| > 0 {
      var m := MaxRows(t.values);
      assert |t.values[0]| <= m;
    }
  }

  function RowSql(t: Table, i: nat): seq<string>
    requires |t.columns| <= |t.values|
  {
    seq(|t.columns|, idx requires 0 <= idx < |t.columns| => CellSql(t.columns[idx].ty, CellAt(t, idx, i)))
  }

  function InsertStatement(t: Table, i: nat): string
    requires |t.columns| <= |t.values|
  {
    "INSERT INTO " + t.name + " (" + Join(ColumnNames(t.columns), ", ") + ") VALUES ("
      + Join(RowSql(t, i), ", ") + ");"
  }

  /** The INSERTs of a table, one per row up to the longest value sequence. */
  function InsertStatements(t: Table): seq<string>
    requires |t.columns| <= |t.values|
  {
    seq(MaxRows(t.values), i requires 0 <= i < MaxRows(t.values) => InsertStatement(t, i))
  }

  /** The `for` loop of generateSQL: one INSERT pushed per row index below the
      maximum length. */
  method BuildInserts(t: Table) returns (stmts: seq<string>)
    requires |t.columns| <= |t.values|
    ensures |stmts| == MaxRows(t.values)
    ensures forall i :: 0 <= i < |stmts| ==> stmts[i] == InsertStatement(t, i)
  {
    var maxRows := MaxRows(t.values);
    stmts := [];
    for i := 0 to maxRows
      invariant |stmts| == i
      invariant forall j :: 0 <= j < i ==> stmts[j] == InsertStatement(t, j)
    {
      var row := RowSql(t, i);
      stmts := stmts + ["INSERT INTO " + t.name + " (" + Join(ColumnNames(t.columns), ", ") + ") VALUES ("
        + Join(row, ", ") + ");"];
    }
  }

  /** In a table with equal-length value sequences there is one INSERT per row
      and every cell of it is read from an existing value. */
  lemma InsertsOfRectangular(t: Table)
    requires Rectangular(t)
    ensures |InsertStatements(t)| == RowCount(t)
    ensures forall i, idx :: 0 <= i < RowCount(t) && 0 <= idx < |t.columns| ==>
      RowSql(t, i)[idx] == CellSql(t.columns[idx].ty, Some(t.values[idx][i]))
  {
    MaxRowsOfRectangular(t);
  }

  // ---------------------------------------------------------------- definitions

  /** `  name TYPE`, with ` PRIMARY KEY` when the column is the primary key. */
  function ColumnDef(c: Column, pk: string): string {
    "  " + c.name + " " + TypeName(c.ty) + (if pk == c.name then " PRIMARY KEY" else "")
  }

  predicate EndsWith(s: string, suffix: string) {
    |suffix| <= |s| && s[|s| - |suffix|..] == suffix
  }

  /** The definition is marked PRIMARY KEY exactly when the key names the column. */
  lemma ColumnDefMarksKey(c: Column, pk: string)
    ensures EndsWith(ColumnDef(c, pk), " PRIMARY KEY") <==> pk == c.name
  {
    var d := ColumnDef(c, pk);
    if pk != c.name {
      var ty := TypeName(c.ty);
      assert d[|d| - 1] == ty[|ty| - 1] != 'Y';
    }
  }

  function ColumnDefs(t: Table): string {
    Join(seq(|t.columns|, i requires 0 <= i < |t.columns| => ColumnDef(t.columns[i], t.primaryKey)), ",\n")
  }

  /** `tableIdToName.get(id) || id`: the name of the last node with the id, or
      the raw id when there is no such node or its name is "". */
  function RefTableName(ts: seq<Table>, id: string): string {
    var k := LastIndexOf(ts, id);
    if k >= 0 && ts[k].name != "" then ts[k].name else id
  }

  /** In a well-formed store the referenced table is the one with that id. */
  lemma RefTableNameSpec(ts: seq<Table>, id: string)
    requires StoreInvariant(ts)
    ensures forall k :: 0 <= k < |ts| && ts[k].id == id ==>
      RefTableName(ts, id) == if ts[k].name != "" then ts[k].name else id
    ensures (forall k :: 0 <= k < |ts| ==> ts[k].id != id) ==> RefTableName(ts, id) == id
  {
    forall k | 0 <= k < |ts| && ts[k].id == id
      ensures RefTableName(ts, id) == if ts[k].name != "" then ts[k].name else id
    {
      LookupFinds(ts, k);
    }
  }

  function ForeignKeyDef(ts: seq<Table>, fk: ForeignKey): string {
    "  FOREIGN KEY (" + fk.column + ") REFERENCES " + RefTableName(ts, fk.refTableId) + "(" + fk.refColumn + ")"
  }

  function ForeignKeyDefs(ts: seq<Table>, t: Table): string {
    Join(seq(|t.foreignKeys|, i requires 0 <= i < |t.foreignKeys| => ForeignKeyDef(ts, t.foreignKeys[i])), ",\n")
  }

  /** `fksSQL ? ",\n" + fksSQL : ""`. */
  function Constraints(ts: seq<Table>, t: Table): string {
    var fks := ForeignKeyDefs(ts, t);
    if fks != "" then ",\n" + fks else ""
  }

  /** A table gets a constraint section exactly when it has a foreign key. */
  lemma ConstraintsIffForeignKeys(ts: seq<Table>, t: Table)
    ensures Constraints(ts, t) == "" <==> t.foreignKeys == []
  {
    if t.foreignKeys != [] {
      var defs := seq(|t.foreignKeys|, i requires 0 <= i < |t.foreignKeys| => ForeignKeyDef(ts, t.foreignKeys[i]));
      JoinStartsWithFirst(defs, ",\n");
    }
  }

  function TableSql(ts: seq<Table>, t: Table): string
    requires |t.columns| <= |t.values|
  {
    "CREATE TABLE " + t.name + " (\n" + ColumnDefs(t) + Constraints(ts, t) + "\n);\n"
      + Join(InsertStatements(t), "\n")
  }

  predicate Exportable(ts: seq<Table>) {
    forall i :: 0 <= i < |ts| ==> |ts[i].columns| <= |ts[i].values|
  }

  /** The statements of each table, in node order. */
  function TableBlocks(ts: seq<Table>): seq<string>
    requires Exportable(ts)
  {
    seq(|ts|, i requires 0 <= i < |ts| => TableSql(ts, ts[i]))
  }

  /** generateSQL: the tables' statements in node order, separated by a blank line. */
  function SqlScript(ts: seq<Table>): string
    requires Exportable(ts)
  {
    Join(TableBlocks(ts), "\n\n")
  }

  /** The body of the `nodes.map` callback: one table's CREATE TABLE
      statement followed by its INSERTs. */
  method EmitTableBlock(ts: seq<Table>, t: Table) returns (block: string)
    requires |t.columns| <= |t.values|
    ensures block == TableSql(ts, t)
  {
    var inserts := BuildInserts(t);
    assert inserts == InsertStatements(t);
    block := "CREATE TABLE " + t.name + " (\n" + ColumnDefs(t) + Constraints(ts, t) + "\n);\n"
      + Join(inserts, "\n");
  }

  /** generateSQL: `nodes.map(...)` with the INSERT loop inside, joined. */
  method GenerateSql(ts: seq<Table>) returns (sql: string)
    requires Exportable(ts)
    ensures sql == SqlScript(ts)
  {
    var blocks: seq<string> := [];
    ghost var all := TableBlocks(ts);
    for k := 0 to |ts|
      invariant blocks == all[..k]
    {
      var block := EmitTableBlock(ts, ts[k]);
      PrefixStep(all, k, block);
      blocks := blocks + [block];
    }
    assert blocks == all;
    sql := Join(blocks, "\n\n");
  }

  /** The script is empty exactly when there are no tables, and otherwise
      starts with the first table's CREATE TABLE statement. */
  lemma SqlScriptShape(ts: seq<Table>)
    requires Exportable(ts)
    ensures SqlScript(ts) == "" <==> ts == []
    ensures ts != [] ==>
      var first := TableSql(ts, ts[0]);
      |SqlScript(ts)| >= |first| && SqlScript(ts)[..|first|] == first && SqlScript(ts)[..13] == "CREATE TABLE "
  {
    if ts != [] {
      var parts := TableBlocks(ts);
      JoinStartsWithFirst(parts, "\n\n");
      assert parts[0][..13] == "CREATE TABLE ";
    }
  }
}
