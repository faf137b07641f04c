/** The editor's store: the `nodes` state of App() (src/App.jsx:16), which
    every handler replaces through `setNodes`, and the two exports read. */
module App {
  import Strings
  import opened Results
  import opened Schema
  import opened Snapshot
  import Tables
  import Connection
  import SqlExport
  import ErdExport

  class SchemaStore {
    /** The table nodes, in creation order. */
    var tables: seq<Table>

    ghost predicate Valid()
      reads this
    {
      StoreInvariant(tables)
    }

    constructor()
      ensures tables == [] && Valid()
    {
      tables := [];
    }

    /** The dialog's "Add Table" button: adds the table, or reports that no
        column has a name and leaves the store as it was. */
    method CreateTable(name: string, draft: seq<Tables.DraftColumn>, pk: string)
      returns (err: Option<Tables.CreateError>)
      requires Valid()
      modifies this
      ensures Valid()
      ensures AddTable(old(tables), name, draft, pk).Ok? ==>
        tables == AddTable(old(tables), name, draft, pk).value && err == None
      ensures AddTable(old(tables), name, draft, pk).Err? ==>
        tables == old(tables) && err == Some(Tables.NoColumns)
      ensures err == None <==> exists c :: c in draft && Strings.Trim(c.name) != ""
    {
      AddTableSpec(tables, name, draft, pk);
      match AddTable(tables, name, draft, pk)
      case Ok(r) =>
        tables := r;
        err := None;
      case Err(e) =>
        err := Some(e);
    }

    /** One handler call on the node `id`; returns the alerts it raised. */
    method Edit(id: string, e: Snapshot.Edit) returns (alerts: seq<Tables.RowError>)
      requires Valid() && ApplicableTo(tables, id, e)
      modifies this
      ensures Valid()
      ensures tables == EditTables(old(tables), id, e)
      ensures alerts == Alerts(old(tables), id, e)
      ensures |alerts| <= 1 && (alerts != [] ==> e.AddRow? && tables == old(tables))
    {
      alerts := Alerts(tables, id, e);
      if k :| 0 <= k < |tables| && tables[k].id == id {
        EditTouchesOne(tables, k, e);
        AfterKeepsShape(tables[k], e);
      } else {
        EditUnknownId(tables, id, e);
      }
      EditKeepsInvariant(tables, id, e);
      tables := EditTables(tables, id, e);
    }

    method HandleAddColumn(id: string, name: string, ty: SqlType)
      requires Valid()
      modifies this
      ensures Valid() && tables == EditTables(old(tables), id, Snapshot.AddColumn(name, ty))
    {
      var _ := Edit(id, Snapshot.AddColumn(name, ty));
    }

    method HandleRenameTable(id: string, name: string)
      requires Valid()
      modifies this
      ensures Valid() && tables == EditTables(old(tables), id, Snapshot.RenameTable(name))
    {
      var _ := Edit(id, Snapshot.RenameTable(name));
    }

    method HandleRenameColumn(id: string, idx: nat, name: string)
      requires Valid()
      modifies this
      ensures Valid() && tables == EditTables(old(tables), id, Snapshot.RenameColumn(idx, name))
    {
      var _ := Edit(id, Snapshot.RenameColumn(idx, name));
    }

    method HandleChangeColumnType(id: string, idx: nat, ty: SqlType)
      requires Valid()
      modifies this
      ensures Valid() && tables == EditTables(old(tables), id, Snapshot.ChangeColumnType(idx, ty))
    {
      var _ := Edit(id, Snapshot.ChangeColumnType(idx, ty));
    }

    method HandleRemoveColumn(id: string, idx: nat)
      requires Valid()
      modifies this
      ensures Valid() && tables == EditTables(old(tables), id, Snapshot.RemoveColumn(idx))
    {
      var _ := Edit(id, Snapshot.RemoveColumn(idx));
    }

    /** handleAddRow: an empty or duplicate key raises one alert and changes nothing. */
    method HandleAddRow(id: string, row: seq<Option<string>>) returns (alerts: seq<Tables.RowError>)
      requires Valid()
      modifies this
      ensures Valid() && tables == EditTables(old(tables), id, Snapshot.AddRow(row))
      ensures alerts == Alerts(old(tables), id, Snapshot.AddRow(row))
      ensures |alerts| <= 1 && (alerts != [] ==> tables == old(tables))
    {
      alerts := Edit(id, Snapshot.AddRow(row));
    }

    method HandleUpdateCell(id: string, rowIdx: nat, colIdx: nat, value: Option<string>)
      requires Valid() && ApplicableTo(tables, id, Snapshot.UpdateCell(rowIdx, colIdx, value))
      modifies this
      ensures Valid() && tables == EditTables(old(tables), id, Snapshot.UpdateCell(rowIdx, colIdx, value))
    {
      var _ := Edit(id, Snapshot.UpdateCell(rowIdx, colIdx, value));
    }

    method HandleRemoveRow(id: string, rowIdx: nat)
      requires Valid()
      modifies this
      ensures Valid() && tables == EditTables(old(tables), id, Snapshot.RemoveRow(rowIdx))
    {
      var _ := Edit(id, Snapshot.RemoveRow(rowIdx));
    }

    method HandleSetPrimaryKey(id: string, name: string)
      requires Valid()
      modifies this
      ensures Valid() && tables == EditTables(old(tables), id, Snapshot.SetPrimaryKey(name))
    {
      var _ := Edit(id, Snapshot.SetPrimaryKey(name));
    }

    /** addForeignKey: the key is stored on the child table. */
    method AddForeignKey(childId: string, childCol: string, parentId: string, parentCol: string)
      requires Valid()
      modifies this
      ensures Valid() && tables == EditTables(old(tables), childId, Snapshot.AddForeignKey(childCol, parentId, parentCol))
    {
      var _ := Edit(childId, Snapshot.AddForeignKey(childCol, parentId, parentCol));
    }

    /** The foreign-key part of onConnect. */
    method OnConnect(source: string, target: string, sourceHandle: Option<string>, targetHandle: Option<string>)
      requires Valid()
      modifies this
      ensures Valid() && tables == Connection.Connect(old(tables), source, target, sourceHandle, targetHandle)
    {
      var sCol := Connection.HandleColumnAsWritten(sourceHandle);
      var tCol := Connection.HandleColumnAsWritten(targetHandle);
      if source != "" && target != "" && sCol != "" && tCol != "" {
        AddForeignKey(target, tCol, source, sCol);
      }
    }

    /** The "Export SQL" text. */
    method GenerateSql() returns (sql: string)
      requires Valid()
      ensures sql == SqlExport.SqlScript(tables)
      ensures sql == "" <==> tables == []
    {
      SqlExport.SqlScriptShape(tables);
      sql := SqlExport.GenerateSql(tables);
    }

    /** The Mermaid text of the "ERD" dialog. */
    method GenerateMermaidErd() returns (text: string)
      requires Valid()
      ensures text == ErdExport.ErdText(tables)
      ensures |text| >= 10 && text[..10] == "erDiagram\n"
    {
      ErdExport.ErdTextHeader(tables);
      text := ErdExport.GenerateMermaidErd(tables);
    }
  }
}
