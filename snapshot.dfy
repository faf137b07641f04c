/** The whole store: the `nodes` array of src/App.jsx as a sequence of tables.
    Every handler is applied as `nds.map(n => n.id === id ? f(n) : n)`, so an
    edit reaches each node carrying the addressed id and no other. */
module Snapshot {
  import opened Strings
  import opened Results
  import opened Schema
  import Tables

  /** One call of a node handler, without its node id. */
  datatype Edit =
    | AddColumn(name: string, ty: SqlType)
    | RenameTable(name: string)
    | RenameColumn(idx: nat, name: string)
    | ChangeColumnType(idx: nat, ty: SqlType)
    | RemoveColumn(idx: nat)
    | AddRow(row: seq<Option<string>>)
    | UpdateCell(rowIdx: nat, colIdx: nat, value: Option<string>)
    | RemoveRow(rowIdx: nat)
    | SetPrimaryKey(name: string)
    | AddForeignKey(column: string, refTableId: string, refColumn: string)

  /** A cell update must address an existing cell; every other edit applies to any node. */
  predicate Applicable(t: Table, e: Edit) {
    e.UpdateCell? ==> e.colIdx < |t.columns| && e.colIdx < |t.values| && e.rowIdx < |t.values[e.colIdx]|
  }

  /** The handler's outcome on one node: its new form, or the alert it raises. */
  function Apply(t: Table, e: Edit): Result<Table, Tables.RowError>
    requires Applicable(t, e)
  {
    match e
    case AddColumn(name, ty) => Ok(Tables.AddColumn(t, name, ty))
    case RenameTable(name) => Ok(Tables.RenameTable(t, name))
    case RenameColumn(idx, name) => Ok(Tables.RenameColumn(t, idx, name))
    case ChangeColumnType(idx, ty) => Ok(Tables.ChangeColumnType(t, idx, ty))
    case RemoveColumn(idx) => Ok(Tables.RemoveColumn(t, idx))
    case AddRow(row) => Tables.AddRow(t, row)
    case UpdateCell(rowIdx, colIdx, value) => Ok(Tables.UpdateCell(t, rowIdx, colIdx, value))
    case RemoveRow(rowIdx) => Ok(Tables.RemoveRow(t, rowIdx))
    case SetPrimaryKey(name) => Ok(Tables.SetPrimaryKey(t, name))
    case AddForeignKey(column, refTableId, refColumn) => Ok(Tables.AddForeignKey(t, column, refTableId, refColumn))
  }

  /** The node after the edit: after an alert the node is returned as it was. */
  function After(t: Table, e: Edit): Table
    requires Applicable(t, e)
  {
    match Apply(t, e)
    case Ok(r) => r
    case Err(_) => t
  }

  predicate ApplicableTo(ts: seq<Table>, id: string, e: Edit) {
    forall i :: 0 <= i < |ts| && ts[i].id == id ==> Applicable(ts[i], e)
  }

  /** `setNodes(nds => nds.map(n => n.id === id ? f(n) : n))`. */
  function EditTables(ts: seq<Table>, id: string, e: Edit): seq<Table>
    requires ApplicableTo(ts, id, e)
  {
    seq(|ts|, i requires 0 <= i < |ts| => if ts[i].id == id then After(ts[i], e) else ts[i])
  }

  /** The alerts raised by the nodes from position `i` on, in node order. */
  function AlertsFrom(ts: seq<Table>, id: string, e: Edit, i: nat): seq<Tables.RowError>
    requires ApplicableTo(ts, id, e) && i <= |ts|
    decreases |ts| - i
  {
    if i == |ts| then []
    else
      var here := if ts[i].id == id && Apply(ts[i], e).Err? then [Apply(ts[i], e).error] else [];
      here + AlertsFrom(ts, id, e, i + 1)
  }

  function Alerts(ts: seq<Table>, id: string, e: Edit): seq<Tables.RowError>
    requires ApplicableTo(ts, id, e)
  {
    AlertsFrom(ts, id, e, 0)
  }

  // ---------------------------------------------------------------- single node

  /** No edit changes a node's id; every edit keeps one value sequence per
      column; every edit but adding a column to a table that has rows keeps the
      value sequences of equal length; only adding a row can raise an alert. */
  lemma AfterKeepsShape(t: Table, e: Edit)
    requires Applicable(t, e)
    ensures After(t, e).id == t.id
    ensures Shaped(t) ==> Shaped(After(t, e))
    ensures Rectangular(t) && !(e.AddColumn? && RowCount(t) > 0) ==> Rectangular(After(t, e))
    ensures Apply(t, e).Err? ==> e.AddRow?
  {
    match e
    case AddColumn(name, ty) =>
      Tables.AddColumnSpec(t, name, ty);
    case RemoveColumn(idx) =>
      if idx < |t.columns| {
        Tables.RemoveColumnSpec(t, idx);
      } else if Shaped(t) {
        Tables.RemoveColumnOutOfRange(t, idx);
      }
    case AddRow(row) =>
      if Apply(t, e).Ok? {
        Tables.AddRowAppends(t, row);
        if Rectangular(t) {
          Tables.AddRowKeepsRectangular(t, row);
        }
      }
    case UpdateCell(rowIdx, colIdx, value) =>
      Tables.UpdateCellSpec(t, rowIdx, colIdx, value);
    case RemoveRow(rowIdx) =>
      Tables.RemoveRowSpec(t, rowIdx);
      if Rectangular(t) && rowIdx >= RowCount(t) {
        assert forall c :: 0 <= c < |t.values| ==> rowIdx >= |t.values[c]|;
      }
    case _ =>
  }

  // ---------------------------------------------------------------- the store

  /** The store as table creation builds it: the node at position `i` has id
      `i + 1` and one value sequence per column. */
  predicate StoreInvariant(ts: seq<Table>) {
    forall i :: 0 <= i < |ts| ==> ts[i].id == NatToString(i + 1) && Shaped(ts[i])
  }

  /** In a well-formed store no two nodes share an id. */
  lemma IdsUnique(ts: seq<Table>, i: nat, j: nat)
    requires StoreInvariant(ts) && i < |ts| && j < |ts| && ts[i].id == ts[j].id
    ensures i == j
  {
    NatToStringInjective(i + 1, j + 1);
  }

  /** An edit addressed to the node at `k` replaces that node by its edited
      form and leaves every other node as it was; it raises at most the one
      alert of that node. */
  lemma EditTouchesOne(ts: seq<Table>, k: nat, e: Edit)
    requires StoreInvariant(ts) && k < |ts| && Applicable(ts[k], e)
    ensures ApplicableTo(ts, ts[k].id, e)
    ensures EditTables(ts, ts[k].id, e) == ts[k := After(ts[k], e)]
    ensures Alerts(ts, ts[k].id, e) == if Apply(ts[k], e).Err? then [Apply(ts[k], e).error] else []
  {
    var id := ts[k].id;
    forall i | 0 <= i < |ts| && ts[i].id == id ensures i == k {
      IdsUnique(ts, i, k);
    }
    assert EditTables(ts, id, e) == ts[k := After(ts[k], e)];
    AlertsDown(ts, k, e, 0);
  }

  lemma {:induction false} AlertsDown(ts: seq<Table>, k: nat, e: Edit, j: nat)
    requires k < |ts| && j <= |ts| && ApplicableTo(ts, ts[k].id, e)
    requires forall i :: 0 <= i < |ts| && ts[i].id == ts[k].id ==> i == k
    ensures AlertsFrom(ts, ts[k].id, e, j) ==
      if j <= k && Apply(ts[k], e).Err? then [Apply(ts[k], e).error] else []
    decreases |ts| - j
  {
    if j < |ts| {
      AlertsDown(ts, k, e, j + 1);
    }
  }

  /** An edit addressed to an id no node has changes nothing and raises nothing. */
  lemma EditUnknownId(ts: seq<Table>, id: string, e: Edit)
    requires forall i :: 0 <= i < |ts| ==> ts[i].id != id
    ensures ApplicableTo(ts, id, e)
    ensures EditTables(ts, id, e) == ts
    ensures Alerts(ts, id, e) == []
  {
    NoAlertsFrom(ts, id, e, 0);
  }

  lemma {:induction false} NoAlertsFrom(ts: seq<Table>, id: string, e: Edit, j: nat)
    requires j <= |ts| && forall i :: 0 <= i < |ts| ==> ts[i].id != id
    ensures AlertsFrom(ts, id, e, j) == []
    decreases |ts| - j
  {
    if j < |ts| {
      NoAlertsFrom(ts, id, e, j + 1);
    }
  }

  /** Every edit keeps the store well formed. */
  lemma EditKeepsInvariant(ts: seq<Table>, id: string, e: Edit)
    requires StoreInvariant(ts) && ApplicableTo(ts, id, e)
    ensures StoreInvariant(EditTables(ts, id, e))
  {
    var r := EditTables(ts, id, e);
    forall i | 0 <= i < |r| ensures r[i].id == NatToString(i + 1) && Shaped(r[i]) {
      if ts[i].id == id {
        AfterKeepsShape(ts[i], e);
      }
    }
  }

  /** Only the edited node can lose equal-length value sequences, and only
      when a column is added to it after rows were entered. */
  lemma EditKeepsRectangular(ts: seq<Table>, id: string, e: Edit)
    requires ApplicableTo(ts, id, e)
    requires forall i :: 0 <= i < |ts| ==> Rectangular(ts[i])
    requires e.AddColumn? ==> forall i :: 0 <= i < |ts| && ts[i].id == id ==> RowCount(ts[i]) == 0
    ensures forall i :: 0 <= i < |ts| ==> Rectangular(EditTables(ts, id, e)[i])
  {
    var r := EditTables(ts, id, e);
    forall i | 0 <= i < |ts| ensures Rectangular(r[i]) {
      if ts[i].id == id {
        AfterKeepsShape(ts[i], e);
      }
    }
  }

  // ---------------------------------------------------------------- creation

  /** "Add Table": the new node goes at the end, numbered after the existing ones. */
  function AddTable(ts: seq<Table>, name: string, draft: seq<Tables.DraftColumn>, pk: string)
    : Result<seq<Table>, Tables.CreateError>
  {
    match Tables.NewTableAsWritten(|ts|, name, draft, pk)
    case Ok(t) => Ok(ts + [t])
    case Err(err) => Err(err)
  }

  /** Creation fails exactly when every draft column is blank; otherwise it
      appends one table with a fresh id and no rows, keeps the existing tables
      and keeps the store well formed. The key is kept when it equals the
      untrimmed name of a kept column, so a key offered by the dialog (a
      trimmed name) always resolves. */
  lemma AddTableSpec(ts: seq<Table>, name: string, draft: seq<Tables.DraftColumn>, pk: string)
    requires StoreInvariant(ts)
    ensures AddTable(ts, name, draft, pk).Err? <==> forall c :: c in draft ==> Trim(c.name) == ""
    ensures AddTable(ts, name, draft, pk).Ok? ==>
      var r := AddTable(ts, name, draft, pk).value;
      && |r| == |ts| + 1 && r[..|ts|] == ts
      && StoreInvariant(r)
      && (forall i :: 0 <= i < |ts| ==> ts[i].id != r[|ts|].id)
      && Rectangular(r[|ts|]) && RowCount(r[|ts|]) == 0
      && r[|ts|].primaryKey == (if pk != "" && pk in Tables.DraftNames(Tables.KeptColumns(draft)) then pk else "")
      && (Trim(pk) == pk ==> KeyResolves(r[|ts|]))
  {
    Tables.NewTableFailsIffAllBlank(|ts|, name, draft, pk);
    Tables.NewTableAsWrittenMatches(|ts|, name, draft, pk);
    var made := Tables.NewTableAsWritten(|ts|, name, draft, pk);
    if made.Ok? {
      var t := made.value;
      assert AddTable(ts, name, draft, pk) == Ok(ts + [t]);
      Tables.NewTableShape(|ts|, name, draft, pk);
      if Trim(pk) == pk {
        Tables.NewTableAsWrittenKey(|ts|, name, draft, pk);
      }
      AppendNext(ts, t);
    }
  }

  /** Appending a well-shaped table numbered after the existing ones keeps
      the store well formed, and its id is new. */
  lemma AppendNext(ts: seq<Table>, t: Table)
    requires StoreInvariant(ts)
    requires t.id == NatToString(|ts| + 1) && Shaped(t)
    ensures (ts + [t])[..|ts|] == ts
    ensures StoreInvariant(ts + [t])
    ensures forall i :: 0 <= i < |ts| ==> ts[i].id != t.id
  {
    var r := ts + [t];
    assert r[..|ts|] == ts;
    forall i | 0 <= i < |r| ensures r[i].id == NatToString(i + 1) && Shaped(r[i]) {
      if i < |ts| {
        assert r[i] == ts[i];
      }
    }
    forall i | 0 <= i < |ts| ensures ts[i].id != t.id {
      if ts[i].id == t.id {
        NatToStringInjective(i + 1, |ts| + 1);
      }
    }
  }

  // ---------------------------------------------------------------- lookup

  /** The position of the last node with id `id`, or -1: a JavaScript Map
      filled from the nodes in order keeps the last node set under a key. */
  function LastIndexOf(ts: seq<Table>, id: string): (r: int)
    ensures -1 <= r < |ts|
    ensures r >= 0 ==> ts[r].id == id && forall j :: r < j < |ts| ==> ts[j].id != id
    ensures r == -1 <==> forall j :: 0 <= j < |ts| ==> ts[j].id != id
  {
    if ts == [] then -1
    else if ts[|ts| - 1].id == id then |ts| - 1
    else LastIndexOf(ts[..|ts| - 1], id)
  }

  /** In a well-formed store the lookup finds the one node with the id. */
  lemma LookupFinds(ts: seq<Table>, k: nat)
    requires StoreInvariant(ts) && k < |ts|
    ensures LastIndexOf(ts, ts[k].id) == k
  {
    var r := LastIndexOf(ts, ts[k].id);
    IdsUnique(ts, r, k);
  }
}
