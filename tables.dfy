/** The per-node transitions of the schema editor: what each handler of
    src/App.jsx does to the one table node whose id it was given. Every handler
    there is a pure copy-and-modify of that node, so each is a function here;
    rejected changes return the node unchanged or an error. */
module Tables {
  import opened Strings
  import opened Results
  import opened Schema
  import opened CellValidation

  /** A column row of the "Add Table" dialog, before blank names are dropped. */
  datatype DraftColumn = DraftColumn(name: string, ty: SqlType)

  datatype CreateError = NoColumns

  /** The two rejections of handleAddRow, each reported with an alert. */
  datatype RowError =
    | EmptyPrimaryKey(key: string)
    | DuplicatePrimaryKey(key: string, value: string)

  // ---------------------------------------------------------------- creation

  /** The dialog's columns whose names are not blank, as `filter` keeps
      them: every non-blank column as often as the dialog lists it, and no
      blank one. */
  function KeptColumns(draft: seq<DraftColumn>): (r: seq<DraftColumn>)
    ensures |r| <= |draft|
    ensures forall c :: c in r <==> c in draft && Trim(c.name) != ""
    ensures forall c :: multiset(r)[c] == if Trim(c.name) != "" then multiset(draft)[c] else 0
  {
    if draft == [] then []
    else
      assert draft == [draft[0]] + draft[1..];
      if Trim(draft[0].name) != "" then [draft[0]] + KeptColumns(draft[1..])
      else KeptColumns(draft[1..])
  }

  /** Filtering a concatenation filters each part, so the kept columns stay
      in the dialog's order. */
  lemma {:induction false} KeptColumnsConcat(a: seq<DraftColumn>, b: seq<DraftColumn>)
    ensures KeptColumns(a + b) == KeptColumns(a) + KeptColumns(b)
  {
    if a == [] {
      assert a + b == b;
    } else {
      var ab := a + b;
      assert ab[0] == a[0] && ab[1..] == a[1..] + b;
      KeptColumnsConcat(a[1..], b);
      var head: seq<DraftColumn> := if Trim(a[0].name) != "" then [a[0]] else [];
      var ka, kb := KeptColumns(a[1..]), KeptColumns(b);
      assert KeptColumns(ab) == head + KeptColumns(ab[1..]);
      assert KeptColumns(a) == head + ka;
      AppendAssoc(head, ka, kb);
    }
  }

  /** Reading the dialog's columns one at a time: each new column is appended
      after the ones already kept, or dropped when its name is blank. */
  lemma KeptColumnsAppend(a: seq<DraftColumn>, c: DraftColumn)
    ensures KeptColumns(a + [c]) == KeptColumns(a) + (if Trim(c.name) != "" then [c] else [])
  {
    KeptColumnsConcat(a, [c]);
    assert [c][1..] == [];
  }

  function DraftNames(draft: seq<DraftColumn>): seq<string> {
    seq(|draft|, i requires 0 <= i < |draft| => draft[i].name)
  }

  /** The node "Add Table" builds when `n` tables exist: id `n + 1`, the given
      name or `Table<n + 1>`, the kept columns with trimmed names, one empty
      value sequence per column and no foreign keys. */
  function BuildTable(n: nat, name: string, kept: seq<DraftColumn>, pk: string): Table {
    Table(
      NatToString(n + 1),
      if name != "" then name else "Table" + NatToString(n + 1),
      seq(|kept|, i requires 0 <= i < |kept| => Column(Trim(kept[i].name), kept[i].ty)),
      seq(|kept|, i requires 0 <= i < |kept| => []),
      pk,
      [])
  }

  /** Table creation as src/App.jsx:534-553 writes it: the chosen key is kept
      when it equals the UNTRIMMED name of a kept column. */
  function NewTableAsWritten(n: nat, name: string, draft: seq<DraftColumn>, pk: string)
    : Result<Table, CreateError>
  {
    var kept := KeptColumns(draft);
    if |kept| == 0 then Err(NoColumns)
    else Ok(BuildTable(n, name, kept, if pk != "" && pk in DraftNames(kept) then pk else ""))
  }

  /** Table creation with the key compared against the names the table will
      actually have (the trimmed ones). */
  function NewTable(n: nat, name: string, draft: seq<DraftColumn>, pk: string)
    : Result<Table, CreateError>
  {
    var kept := KeptColumns(draft);
    if |kept| == 0 then Err(NoColumns)
    else
      var t := BuildTable(n, name, kept, "");
      Ok(t.(primaryKey := if pk != "" && pk in ColumnNames(t.columns) then pk else ""))
  }

  /** Creation fails exactly when every column name is blank. */
  lemma NewTableFailsIffAllBlank(n: nat, name: string, draft: seq<DraftColumn>, pk: string)
    ensures NewTable(n, name, draft, pk).Err? <==> forall c :: c in draft ==> Trim(c.name) == ""
  {
    var kept := KeptColumns(draft);
    if |kept| == 0 {
      forall c | c in draft ensures Trim(c.name) == "" {
      }
    } else {
      assert kept[0] in draft;
    }
  }

  /** A created table has the kept columns in order, with trimmed non-blank
      names, no rows and no foreign keys. */
  lemma NewTableShape(n: nat, name: string, draft: seq<DraftColumn>, pk: string)
    requires NewTable(n, name, draft, pk).Ok?
    ensures var t := NewTable(n, name, draft, pk).value;
      var kept := KeptColumns(draft);
      && t.id == NatToString(n + 1)
      && t.name == (if name != "" then name else "Table" + NatToString(n + 1))
      && |t.columns| == |kept| > 0
      && (forall i :: 0 <= i < |kept| ==> t.columns[i].name == Trim(kept[i].name) && t.columns[i].ty == kept[i].ty)
      && (forall i :: 0 <= i < |t.columns| ==> t.columns[i].name != "" && Trim(t.columns[i].name) == t.columns[i].name)
      && Rectangular(t) && RowCount(t) == 0
      && t.foreignKeys == []
  {
    var kept := KeptColumns(draft);
    var t := NewTable(n, name, draft, pk).value;
    assert t == BuildTable(n, name, kept, t.primaryKey);
    forall i | 0 <= i < |t.columns|
      ensures t.columns[i].name != "" && Trim(t.columns[i].name) == t.columns[i].name
    {
      assert kept[i] in kept;
      TrimIdempotent(kept[i].name);
    }
  }

  /** A created table keeps the chosen key exactly when it names one of the
      table's columns, so its key always resolves. */
  lemma NewTableKey(n: nat, name: string, draft: seq<DraftColumn>, pk: string)
    requires NewTable(n, name, draft, pk).Ok?
    ensures var t := NewTable(n, name, draft, pk).value;
      t.primaryKey == (if pk in ColumnNames(t.columns) then pk else "") && KeyResolves(t)
  {

  }

  /** The as-written creation builds the same node as the corrected one
      except for the key, which it keeps only when it equals the untrimmed
      name of a kept column. */
  lemma NewTableAsWrittenMatches(n: nat, name: string, draft: seq<DraftColumn>, pk: string)
    ensures NewTableAsWritten(n, name, draft, pk).Err? <==> NewTable(n, name, draft, pk).Err?
    ensures NewTableAsWritten(n, name, draft, pk).Ok? ==>
      NewTableAsWritten(n, name, draft, pk).value
        == NewTable(n, name, draft, pk).value.(primaryKey := if pk != "" && pk in DraftNames(KeptColumns(draft)) then pk else "")
  {
  }

  /** A key offered by the dialog, which lists trimmed names, still resolves
      after the as-written creation: it is either kept, naming a column, or
      dropped. */
  lemma NewTableAsWrittenKey(n: nat, name: string, draft: seq<DraftColumn>, pk: string)
    requires NewTableAsWritten(n, name, draft, pk).Ok? && Trim(pk) == pk
    ensures KeyResolves(NewTableAsWritten(n, name, draft, pk).value)
  {
    var kept := KeptColumns(draft);
    var t := NewTableAsWritten(n, name, draft, pk).value;
    if t.primaryKey != "" {
      var names := DraftNames(kept);
      var i :| 0 <= i < |names| && names[i] == pk;
      assert t.columns[i].name == Trim(kept[i].name) == pk;
      assert ColumnNames(t.columns)[i] == pk;
    }
  }

  /** The discrepancy of the as-written creation: a column typed with a
      leading space, such as " id", and chosen as primary key "id" (the dialog
      lists trimmed names) is stored as "id", yet the table is created without
      a primary key; the corrected creation keeps the key. */
  lemma PaddedKeyColumnLosesKey(n: nat, name: string, key: string, ty: SqlType)
    requires key != "" && Trim(key) == key
    ensures var draft := [DraftColumn(" " + key, ty)];
      && NewTableAsWritten(n, name, draft, key).Ok?
      && ColumnNames(NewTableAsWritten(n, name, draft, key).value.columns) == [key]
      && NewTableAsWritten(n, name, draft, key).value.primaryKey == ""
    ensures var draft := [DraftColumn(" " + key, ty)];
      && NewTable(n, name, draft, key).Ok?
      && ColumnNames(NewTable(n, name, draft, key).value.columns) == [key]
      && NewTable(n, name, draft, key).value.primaryKey == key
  {
    var draft := [DraftColumn(" " + key, ty)];
    assert Trim(" " + key) == key by {
      TrimLeadingSpace(" " + key);
      assert (" " + key)[1..] == key;
    }
    assert KeptColumns(draft) == draft by {
      assert draft[1..] == [];
    }
    assert BuildTable(n, name, draft, "").columns == [Column(key, ty)];
    assert DraftNames(draft) == [" " + key];
    assert " " + key != key;
  }

  // ---------------------------------------------------------------- columns

  /** handleAddColumn: one more column, with an empty value sequence. */
  function AddColumn(t: Table, name: string, ty: SqlType): Table {
    t.(columns := t.columns + [Column(name, ty)], values := t.values + [[]])
  }

  /** handleRenameTable. */
  function RenameTable(t: Table, name: string): Table {
    t.(name := name)
  }

  /** handleRenameColumn: renames column `idx`; the primary key is not updated. */
  function RenameColumn(t: Table, idx: nat, name: string): Table {
    t.(columns := seq(|t.columns|, i requires 0 <= i < |t.columns| =>
      if i == idx then t.columns[i].(name := name) else t.columns[i]))
  }

  /** handleChangeColumnType: stored cells are not checked against the new type. */
  function ChangeColumnType(t: Table, idx: nat, ty: SqlType): Table {
    t.(columns := seq(|t.columns|, i requires 0 <= i < |t.columns| =>
      if i == idx then t.columns[i].(ty := ty) else t.columns[i]))
  }

  /** `s.filter((_, j) => j !== i)`. */
  function RemoveAt<T>(s: seq<T>, i: nat): seq<T> {
    if i < |s| then s[..i] + s[i + 1..] else s
  }

  /** The index position `j` of a shortened sequence had before removal of `i`. */
  function Skip(j: nat, i: nat): nat {
    if j < i then j else j + 1
  }

  lemma RemoveAtSpec<T>(s: seq<T>, i: nat)
    ensures i < |s| ==> |RemoveAt(s, i)| == |s| - 1
    ensures i < |s| ==> forall j :: 0 <= j < |s| - 1 ==> RemoveAt(s, i)[j] == s[Skip(j, i)]
    ensures i >= |s| ==> RemoveAt(s, i) == s
  {
  }

  /** handleRemoveColumn: drops column `idx` and its values, and clears the
      primary key if it named that column. */
  function RemoveColumn(t: Table, idx: nat): Table {
    var pk := if idx < |t.columns| && t.primaryKey == t.columns[idx].name then "" else t.primaryKey;
    t.(columns := RemoveAt(t.columns, idx), values := RemoveAt(t.values, idx), primaryKey := pk)
  }

  /** Adding a column keeps one value sequence per column and leaves the
      existing columns and values alone; the value sequences stay of equal
      length exactly when the table has no rows yet. */
  lemma AddColumnSpec(t: Table, name: string, ty: SqlType)
    ensures var r := AddColumn(t, name, ty);
      && (Shaped(t) ==> Shaped(r))
      && r.columns[..|t.columns|] == t.columns && r.columns[|t.columns|] == Column(name, ty)
      && r.values[..|t.values|] == t.values && r.values[|t.values|] == []
      && r.(columns := t.columns, values := t.values) == t
      && (Rectangular(t) ==> (Rectangular(r) <==> RowCount(t) == 0))
  {
    var r := AddColumn(t, name, ty);
    if Rectangular(t) && RowCount(t) > 0 {
      assert |r.values[0]| != |r.values[|t.values|]|;
    }
  }

  /** Removing column `idx` removes it and its values in lock step, keeps the
      other columns paired with their own values, and clears the primary key
      exactly when it named the removed column. */
  lemma RemoveColumnSpec(t: Table, idx: nat)
    requires idx < |t.columns|
    ensures var r := RemoveColumn(t, idx);
      && r.(columns := t.columns, values := t.values, primaryKey := t.primaryKey) == t
      && |r.columns| == |t.columns| - 1
      && (forall j :: 0 <= j < |r.columns| ==> r.columns[j] == t.columns[Skip(j, idx)])
      && (Shaped(t) ==> Shaped(r) && forall j :: 0 <= j < |r.values| ==> r.values[j] == t.values[Skip(j, idx)])
      && (Rectangular(t) ==> Rectangular(r))
      && (r.primaryKey == "" <==> t.primaryKey == "" || t.primaryKey == t.columns[idx].name)
      && (r.primaryKey != "" ==> r.primaryKey == t.primaryKey)
      && (KeyResolves(t) ==> KeyResolves(r))
  {
    RemoveColumnPairs(t, idx);
    RemoveColumnKey(t, idx);
  }

  /** The columns and value sequences that remain after removing `idx`. */
  lemma RemoveColumnPairs(t: Table, idx: nat)
    requires idx < |t.columns|
    ensures var r := RemoveColumn(t, idx);
      && |r.columns| == |t.columns| - 1
      && (forall j :: 0 <= j < |r.columns| ==> r.columns[j] == t.columns[Skip(j, idx)])
      && (Shaped(t) ==> Shaped(r) && forall j :: 0 <= j < |r.values| ==> r.values[j] == t.values[Skip(j, idx)])
      && (Rectangular(t) ==> Rectangular(r))
  {
    var r := RemoveColumn(t, idx);
    RemoveAtSpec(t.columns, idx);
    RemoveAtSpec(t.values, idx);
    if Rectangular(t) {
      forall j | 0 <= j < |r.values| ensures |r.values[j]| == RowCount(r) {
        assert r.values[0] == t.values[Skip(0, idx)];
      }
    }
  }

  /** The key after removing column `idx`. */
  lemma RemoveColumnKey(t: Table, idx: nat)
    requires idx < |t.columns|
    ensures var r := RemoveColumn(t, idx);
      && (r.primaryKey == "" <==> t.primaryKey == "" || t.primaryKey == t.columns[idx].name)
      && (r.primaryKey != "" ==> r.primaryKey == t.primaryKey)
      && (KeyResolves(t) ==> KeyResolves(r))
  {
    var r := RemoveColumn(t, idx);
    if KeyResolves(t) && r.primaryKey != "" {
      RemoveAtSpec(t.columns, idx);
      var names := ColumnNames(t.columns);
      var k :| 0 <= k < |names| && names[k] == t.primaryKey;
      var j := if k < idx then k else k - 1;
      assert r.columns[j] == t.columns[k];
      assert ColumnNames(r.columns)[j] == r.primaryKey;
    }
  }

  /** A column removed by an index past the end changes nothing. */
  lemma RemoveColumnOutOfRange(t: Table, idx: nat)
    requires Shaped(t) && idx >= |t.columns|
    ensures RemoveColumn(t, idx) == t
  {
  }

  /** Renaming or retyping a column changes that one column and nothing else:
      the value storage stays as it is, and renaming a column does not carry
      the primary key along. */
  lemma ColumnEditsKeepValues(t: Table, idx: nat, name: string, ty: SqlType)
    ensures RenameColumn(t, idx, name).(columns := t.columns) == t
    ensures ChangeColumnType(t, idx, ty).(columns := t.columns) == t
    ensures |RenameColumn(t, idx, name).columns| == |t.columns| == |ChangeColumnType(t, idx, ty).columns|
    ensures idx < |t.columns| ==> RenameColumn(t, idx, name).columns[idx] == Column(name, t.columns[idx].ty)
    ensures idx < |t.columns| ==> ChangeColumnType(t, idx, ty).columns[idx] == Column(t.columns[idx].name, ty)
    ensures forall j :: 0 <= j < |t.columns| && j != idx ==>
      RenameColumn(t, idx, name).columns[j] == t.columns[j] == ChangeColumnType(t, idx, ty).columns[j]
    ensures RenameColumn(t, idx, name).primaryKey == t.primaryKey
  {
  }

  /** Renaming the table touches only its name, and renaming it back to the
      old name restores the node. */
  lemma RenameTableUndo(t: Table, name: string)
    ensures RenameTable(t, name).(name := t.name) == t
    ensures RenameTable(t, name).name == name
    ensures RenameTable(RenameTable(t, name), t.name) == t
  {
  }

  // ---------------------------------------------------------------- rows

  /** The cell text the new row puts in column `i`: `String(v)`, with "" for a
      missing, undefined or null value; it is not trimmed. */
  function RowCell(row: seq<Option<string>>, i: nat): string {
    if i < |row| then row[i].GetOr("") else ""
  }

  /** The value storage with exactly `n` sequences: missing ones are empty. */
  function RepairValues(values: seq<seq<string>>, n: nat): (r: seq<seq<string>>)
    ensures |r| == n
    ensures forall i :: 0 <= i < n ==> r[i] == if i < |values| then values[i] else []
  {
    if |values| == n then values
    else seq(n, i requires 0 <= i < n => if i < |values| then values[i] else [])
  }

  /** The stored values of the primary-key column `k`. */
  function KeyColumnValues(t: Table, k: int): seq<string> {
    if 0 <= k < |t.values| then t.values[k] else []
  }

  predicate RowIsBlank(t: Table, row: seq<Option<string>>) {
    forall i :: 0 <= i < |t.columns| ==> Trim(RowCell(row, i)) == ""
  }

  predicate KeyTaken(existing: seq<string>, key: string) {
    exists j :: 0 <= j < |existing| && Trim(existing[j]) == Trim(key)
  }

  /** handleAddRow. */
  function AddRow(t: Table, row: seq<Option<string>>): Result<Table, RowError> {
    var n := |t.columns|;
    var k := KeyIndex(t);
    if k < 0 && RowIsBlank(t, row) then Ok(t)
    else if k >= 0 && Trim(RowCell(row, k)) == "" then Err(EmptyPrimaryKey(t.primaryKey))
    else if k >= 0 && KeyTaken(KeyColumnValues(t, k), RowCell(row, k)) then
      Err(DuplicatePrimaryKey(t.primaryKey, RowCell(row, k)))
    else
      var values := RepairValues(t.values, n);
      Ok(t.(values := seq(n, i requires 0 <= i < n => values[i] + [RowCell(row, i)])))
  }

  /** The rejections and the silent no-op of handleAddRow. */
  lemma AddRowRejections(t: Table, row: seq<Option<string>>)
    ensures var k := KeyIndex(t);
      k >= 0 && IsBlank(RowCell(row, k)) ==> AddRow(t, row) == Err(EmptyPrimaryKey(t.primaryKey))
    ensures var k := KeyIndex(t);
      k >= 0 && !IsBlank(RowCell(row, k))
      && (exists j :: 0 <= j < |KeyColumnValues(t, k)| && Trim(KeyColumnValues(t, k)[j]) == Trim(RowCell(row, k)))
      ==> AddRow(t, row) == Err(DuplicatePrimaryKey(t.primaryKey, RowCell(row, k)))
    ensures KeyIndex(t) < 0 && (forall i :: 0 <= i < |t.columns| ==> IsBlank(RowCell(row, i)))
      ==> AddRow(t, row) == Ok(t)
    ensures var k := KeyIndex(t);
      AddRow(t, row).Err? <==>
        k >= 0 && (IsBlank(RowCell(row, k)) || KeyTaken(KeyColumnValues(t, k), RowCell(row, k)))
  {
    var k := KeyIndex(t);
    if k >= 0 {
      TrimEmptyIffBlank(RowCell(row, k));
    }
    if KeyIndex(t) < 0 && (forall i :: 0 <= i < |t.columns| ==> IsBlank(RowCell(row, i))) {
      forall i | 0 <= i < |t.columns| ensures Trim(RowCell(row, i)) == "" {
        TrimEmptyIffBlank(RowCell(row, i));
      }
    }
  }

  /** An accepted row that is not ignored grows every column's value sequence
      by exactly one cell, the row's text for that column; nothing else changes.
      The storage then has exactly one sequence per column, even if it had not. */
  lemma AddRowAppends(t: Table, row: seq<Option<string>>)
    requires AddRow(t, row).Ok?
    ensures var r := AddRow(t, row).value;
      r == t || (
        && r.(values := t.values) == t
        && Shaped(r)
        && forall i :: 0 <= i < |t.columns| ==>
          var old_ := if i < |t.values| then t.values[i] else [];
          |r.values[i]| == |old_| + 1 && r.values[i][..|old_|] == old_ && r.values[i][|old_|] == RowCell(row, i))
    ensures var r := AddRow(t, row).value;
      r == t <==> KeyIndex(t) < 0 && RowIsBlank(t, row)
  {
    var r := AddRow(t, row).value;
    if !(KeyIndex(t) < 0 && RowIsBlank(t, row)) {
      var n := |t.columns|;
      assert n > 0;
      var values := RepairValues(t.values, n);
      assert |r.values[0]| == |values[0]| + 1;
      assert r != t;
    }
    if r != t {
      forall i | 0 <= i < |t.columns|
        ensures var old_ := if i < |t.values| then t.values[i] else [];
          |r.values[i]| == |old_| + 1 && r.values[i][..|old_|] == old_ && r.values[i][|old_|] == RowCell(row, i)
      {
      }
    }
  }

  /** Adding a row keeps a rectangular table rectangular, with one more row
      when the row was taken. */
  lemma AddRowKeepsRectangular(t: Table, row: seq<Option<string>>)
    requires Rectangular(t) && AddRow(t, row).Ok?
    ensures var r := AddRow(t, row).value;
      Rectangular(r) && (r == t || RowCount(r) == RowCount(t) + 1)
  {
    var r := AddRow(t, row).value;
    AddRowAppends(t, row);
    if r != t && |t.columns| > 0 {
      forall i | 0 <= i < |r.values| ensures |r.values[i]| == RowCount(r) {
        assert |r.values[0]| == |t.values[0]| + 1;
      }
    }
  }

  /** The primary-key column's values are non-blank and pairwise distinct
      after trimming. */
  predicate KeyIntegrity(t: Table) {
    var k := KeyIndex(t);
    0 <= k < |t.values| ==> DistinctKeys(t.values[k])
  }

  predicate DistinctKeys(col: seq<string>) {
    && (forall a :: 0 <= a < |col| ==> Trim(col[a]) != "")
    && (forall a, b :: 0 <= a < b < |col| ==> Trim(col[a]) != Trim(col[b]))
  }

  /** handleAddRow's two checks keep the primary-key column free of blank and
      duplicate keys. */
  lemma AddRowKeepsKeyIntegrity(t: Table, row: seq<Option<string>>)
    requires KeyIntegrity(t) && AddRow(t, row).Ok?
    ensures KeyIntegrity(AddRow(t, row).value)
  {
    var r := AddRow(t, row).value;
    var k := KeyIndex(t);
    assert KeyIndex(r) == k;
    if r != t && 0 <= k {
      AddRowAppends(t, row);
      var existing := KeyColumnValues(t, k);
      var col := r.values[k];
      assert col == existing + [RowCell(row, k)];
      forall a, b | 0 <= a < b < |col| ensures Trim(col[a]) != Trim(col[b]) {
        if b == |existing| {
          assert col[a] == existing[a];
        } else {
          assert col[a] == existing[a] && col[b] == existing[b];
        }
      }
    }
  }

  /** handleUpdateCell: the new text replaces one cell if the column's type
      check lets it in, and nothing changes otherwise. */
  function UpdateCell(t: Table, rowIdx: nat, colIdx: nat, value: Option<string>): Table
    requires colIdx < |t.columns| && colIdx < |t.values| && rowIdx < |t.values[colIdx]|
  {
    var v := value.GetOr("");
    if !Accepts(t.columns[colIdx].ty, v) then t
    else t.(values := t.values[colIdx := t.values[colIdx][rowIdx := v]])
  }

  /** A rejected value leaves the table as it was; an accepted one changes
      exactly the addressed cell, which then holds the untrimmed text. */
  lemma UpdateCellSpec(t: Table, rowIdx: nat, colIdx: nat, value: Option<string>)
    requires colIdx < |t.columns| && colIdx < |t.values| && rowIdx < |t.values[colIdx]|
    ensures var r := UpdateCell(t, rowIdx, colIdx, value);
      var v := value.GetOr("");
      && (!Accepts(t.columns[colIdx].ty, v) ==> r == t)
      && (Accepts(t.columns[colIdx].ty, v) ==>
        && r.(values := t.values) == t
        && |r.values| == |t.values|
        && r.values[colIdx][rowIdx] == v
        && (forall c :: 0 <= c < |t.values| ==> |r.values[c]| == |t.values[c]|)
        && (forall c, j :: 0 <= c < |t.values| && 0 <= j < |t.values[c]| && (c, j) != (colIdx, rowIdx) ==>
              r.values[c][j] == t.values[c][j]))
      && (Rectangular(t) ==> Rectangular(r))
  {
  }

  /** Nothing in handleUpdateCell re-checks the primary key: any key cell can
      be blanked after it was inserted. */
  lemma UpdateCellSkipsKeyCheck(t: Table, rowIdx: nat)
    requires Shaped(t) && 0 <= KeyIndex(t) && rowIdx < |t.values[KeyIndex(t)]|
    ensures !KeyIntegrity(UpdateCell(t, rowIdx, KeyIndex(t), Some("")))
  {
    var k := KeyIndex(t);
    TrimUntouched("");
    var u := UpdateCell(t, rowIdx, k, Some(""));
    assert u.values[k][rowIdx] == "";
    assert KeyIndex(u) == k;
  }

  /** handleRemoveRow: position `rowIdx` leaves every column's value sequence. */
  function RemoveRow(t: Table, rowIdx: nat): Table {
    t.(values := seq(|t.values|, i requires 0 <= i < |t.values| => RemoveAt(t.values[i], rowIdx)))
  }

  /** Removing a row applies `RemoveAt` to every value sequence, whatever its
      length: a sequence that has row `rowIdx` shortens by one with the later
      rows shifted up, a shorter one is unchanged, and the rest of the node is
      kept. On a rectangular table the lengths stay equal and drop by one. */
  lemma RemoveRowSpec(t: Table, rowIdx: nat)
    ensures var r := RemoveRow(t, rowIdx);
      && r.(values := t.values) == t
      && |r.values| == |t.values|
      && (Rectangular(t) && rowIdx < RowCount(t) ==>
        && Rectangular(r) && RowCount(r) == RowCount(t) - 1
        && forall c, j :: 0 <= c < |r.values| && 0 <= j < RowCount(r) ==>
             r.values[c][j] == t.values[c][Skip(j, rowIdx)])
      && ((forall c :: 0 <= c < |t.values| ==> rowIdx >= |t.values[c]|) ==> r == t)
    ensures var r := RemoveRow(t, rowIdx);
      forall c :: 0 <= c < |t.values| ==> r.values[c] == RemoveAt(t.values[c], rowIdx)
    ensures var r := RemoveRow(t, rowIdx);
      forall c :: 0 <= c < |t.values| && rowIdx < |t.values[c]| ==>
        && |r.values[c]| == |t.values[c]| - 1
        && forall j :: 0 <= j < |r.values[c]| ==> r.values[c][j] == t.values[c][Skip(j, rowIdx)]
  {
    var r := RemoveRow(t, rowIdx);
    forall c | 0 <= c < |t.values| ensures r.values[c] == RemoveAt(t.values[c], rowIdx) {
    }
    forall c | 0 <= c < |t.values| && rowIdx < |t.values[c]|
      ensures |r.values[c]| == |t.values[c]| - 1
      ensures forall j :: 0 <= j < |r.values[c]| ==> r.values[c][j] == t.values[c][Skip(j, rowIdx)]
    {
      RemoveAtSpec(t.values[c], rowIdx);
    }
    if Rectangular(t) && rowIdx < RowCount(t) {
      forall c | 0 <= c < |r.values| ensures |r.values[c]| == RowCount(t) - 1 {
        RemoveAtSpec(t.values[c], rowIdx);
      }
      forall c, j | 0 <= c < |r.values| && 0 <= j < RowCount(r)
        ensures r.values[c][j] == t.values[c][Skip(j, rowIdx)]
      {
        RemoveAtSpec(t.values[c], rowIdx);
      }
    }
    if forall c :: 0 <= c < |t.values| ==> rowIdx >= |t.values[c]| {
      assert r.values == t.values;
    }
  }

  /** Removing a row keeps the primary-key column free of blank and duplicate keys. */
  lemma RemoveRowKeepsKeyIntegrity(t: Table, rowIdx: nat)
    requires KeyIntegrity(t)
    ensures KeyIntegrity(RemoveRow(t, rowIdx))
  {
    var r := RemoveRow(t, rowIdx);
    var k := KeyIndex(t);
    assert KeyIndex(r) == k;
    if 0 <= k < |t.values| {
      var col := t.values[k];
      assert r.values[k] == RemoveAt(col, rowIdx);
      RemoveAtSpec(col, rowIdx);
      if rowIdx < |col| {
        var rc := r.values[k];
        forall a | 0 <= a < |rc| ensures Trim(rc[a]) != "" {
          assert rc[a] == col[Skip(a, rowIdx)];
        }
        forall a, b | 0 <= a < b < |rc| ensures Trim(rc[a]) != Trim(rc[b]) {
          assert rc[a] == col[Skip(a, rowIdx)] && rc[b] == col[Skip(b, rowIdx)];
        }
      }
    }
  }

  // ---------------------------------------------------------------- keys

  /** handleSetPrimaryKey: sets the field with no check at all. */
  function SetPrimaryKey(t: Table, name: string): Table {
    t.(primaryKey := name)
  }

  /** addForeignKey, applied to the child table. */
  function AddForeignKey(t: Table, column: string, refTableId: string, refColumn: string): Table {
    t.(foreignKeys := t.foreignKeys + [ForeignKey(column, refTableId, refColumn)])
  }

  /** Setting the primary key changes nothing else and checks nothing: the
      key resolves afterwards exactly when it is "" or names a column. */
  lemma SetPrimaryKeyUnchecked(t: Table, name: string)
    ensures SetPrimaryKey(t, name).(primaryKey := t.primaryKey) == t
    ensures SetPrimaryKey(t, name).primaryKey == name
    ensures KeyResolves(SetPrimaryKey(t, name)) <==> name == "" || name in ColumnNames(t.columns)
  {
  }

  /** A foreign key is appended as the last one, with no check that it
      already exists: adding the same key twice stores it twice. */
  lemma ForeignKeyAppended(t: Table, column: string, refTableId: string, refColumn: string)
    ensures var r := AddForeignKey(t, column, refTableId, refColumn);
      && r.(foreignKeys := t.foreignKeys) == t
      && |r.foreignKeys| == |t.foreignKeys| + 1
      && r.foreignKeys[..|t.foreignKeys|] == t.foreignKeys
      && r.foreignKeys[|t.foreignKeys|] == ForeignKey(column, refTableId, refColumn)
    ensures var fk := ForeignKey(column, refTableId, refColumn);
      multiset(AddForeignKey(AddForeignKey(t, column, refTableId, refColumn), column, refTableId, refColumn).foreignKeys)[fk]
        == multiset(t.foreignKeys)[fk] + 2
  {
    var fk := ForeignKey(column, refTableId, refColumn);
    var r2 := AddForeignKey(AddForeignKey(t, column, refTableId, refColumn), column, refTableId, refColumn);
    assert r2.foreignKeys == t.foreignKeys + [fk] + [fk];
  }
}
