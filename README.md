# Schema editor core, modelled in Dafny

This project models the logic at the core of a browser-based database schema editor. The editor is one React component, `App` in `src/App.jsx`. It holds a list of table nodes. Each node carries:

- a table name;
- columns, each a name and a type (TEXT, INTEGER, REAL or BOOLEAN);
- column-oriented cell values, one text sequence per column;
- a primary-key column name, or "" for none;
- foreign keys, each stored on the referencing (child) table.

Every handler rebuilds the addressed node as a pure copy with `nds.map(n => n.id === id ? f(n) : n)`. The modules follow that structure:

- `Strings` covers the JavaScript built-ins the editor depends on:
  - `trim`, over the full ECMAScript white-space and line-terminator set;
  - ASCII lower-casing;
  - `join`;
  - `split` on one character;
  - the decimal text of the node counter.
- `Schema` holds the table record, column names, `indexOf` and the primary-key position.
- `CellValidation` holds the per-type checks of a cell edit:
  - INTEGER is the regular expression `^-?\d+$`;
  - REAL is `Number()` not being NaN. This is modelled exactly as the StringNumericLiteral grammar of ECMA-262, section 7.1.4.1.1, applied to the trimmed, non-empty text;
  - BOOLEAN is a case-insensitive match against the six accepted words.
- `Tables` has one function per handler, applied to a single node, with lemmas for their invariants and rejection rules.
- `Snapshot` covers the whole node list:
  - the edit datatype and `EditTables`, the `map`-by-id;
  - the alerts a handler raises;
  - table creation;
  - the store invariant: ids are `1..n` and each table has one value sequence per column;
  - the last-wins lookup by id that a JavaScript `Map` built from the nodes performs.
- `Connection` models the foreign-key part of `onConnect` and the handle-id format of `src/TableNode.jsx`.
- `SqlExport` models `generateSQL`. Its INSERT loop is a method proved against the specification functions. Text cells are character string literals as section 5.3 of ISO/IEC 9075-2 defines them, and are proved to read back exactly.
- `ErdExport` models `generateMermaidERD`. Its two `forEach` loops are methods proved against the specification functions. The name sanitiser is factored out and proved idempotent.
- `App` holds the class `SchemaStore`. Its field `tables` plays the role of the `nodes` state. It has one method per handler, each proved to keep the store invariant, plus the two exports.

Points where the code behaves differently from what a reader might expect; the model follows the code:

- Sanitisation replaces each character outside `[A-Za-z0-9_]` with `_` rather than stripping it (`src/App.jsx:282`). Because of this it preserves length.
- Adding a column appends an empty value sequence even when the table already has rows. Equal lengths are therefore kept only when the table has no rows (`Tables.AddColumnSpec`).
- Renaming a column, or setting the primary key, does not keep the primary key pointing at an existing column (`Tables.ColumnEditsKeepValues`, `Tables.SetPrimaryKeyUnchecked`).
- A row is stored as typed, untrimmed, and key comparisons trim both sides (`src/App.jsx:127`, `src/App.jsx:144`).
- There is no "remove table" handler. Nodes are removed only through the diagram widget, which is not part of this model.

## Model

| member | source | states |
|---|---|---|
| `Strings.TrimEmptyIffBlank` | src/App.jsx:131 | A value trims to "" exactly when every character is white space. |
| `Strings.TrimIdempotent` | src/App.jsx:547 | Trimming a trimmed name changes nothing. |
| `Strings.LowerAscii` | src/App.jsx:172 | Lower-casing keeps the length and maps each character through ASCII lower-casing. |
| `Strings.SplitConcat` | src/App.jsx:423-424 | Splitting at a separator splits the two sides independently. |
| `Strings.SplitJoin` | src/App.jsx:423-424 | Splitting a join of separator-free pieces returns the pieces. |
| `Strings.JoinSplit` | src/App.jsx:423-424 | Joining the pieces of a split with the separator returns the string. |
| `Strings.NatToStringInjective` | src/App.jsx:540 | Different node counters give different ids. |
| `Schema.IndexOf` | src/App.jsx:122 | The result is the first position of the name, or -1 exactly when the name is absent. |
| `Schema.KeyIndex` | src/App.jsx:122 | The primary-key position is -1 or a column whose name is the key. It is -1 exactly when there is no key or the key names no column. |
| `CellValidation.IntegerTextIsNumberText` | src/App.jsx:169-170 | Every text the INTEGER check admits, the REAL check admits too. |
| `CellValidation.LettersRejected` | src/App.jsx:168-175 | "abc" is refused by the INTEGER, REAL and BOOLEAN checks. |
| `CellValidation.IntegerAccepted` | src/App.jsx:169 | "-42" passes the INTEGER check. |
| `CellValidation.RealAccepted` | src/App.jsx:170 | "1.5e3" passes the REAL check. |
| `CellValidation.BooleanAccepted` | src/App.jsx:171-175 | "YES" passes the BOOLEAN check, which ignores case. |
| `CellValidation.Accepts` | src/App.jsx:166-176 | The edit check: a value that trims to "" passes, otherwise the trimmed text must pass the column type's check. |
| `CellValidation.BlankAccepted` | src/App.jsx:167-168 | Every blank value, of any length and mix of white space, passes the check of every type. |
| `Tables.KeptColumns` | src/App.jsx:534 | The filter keeps the draft columns whose trimmed name is non-empty, in draft order, each as often as it occurs in the draft. |
| `Tables.KeptColumnsConcat` | src/App.jsx:534 | Filtering a concatenation is concatenating the filtered parts. |
| `Tables.KeptColumnsAppend` | src/App.jsx:534 | A further draft column is kept after the columns already kept, in dialog order, or dropped when its name is blank. |
| `Tables.NewTableAsWritten` | src/App.jsx:534-553 | Table creation as the code does it; the store uses this one. |
| `Tables.NewTable` | src/App.jsx:549 | Table creation with the key compared against the trimmed names. |
| `Tables.NewTableAsWrittenMatches` | src/App.jsx:534-553 | Creation as written fails exactly when the corrected one does. Otherwise it builds the same table, except that the key is kept only when it equals the untrimmed name of a kept draft column. |
| `Tables.NewTableAsWrittenKey` | src/App.jsx:549 | When the chosen key has no surrounding white space, the key of a table created as written resolves. |
| `Tables.NewTableFailsIffAllBlank` | src/App.jsx:534-538 | Creation fails exactly when every draft column name is blank. |
| `Tables.NewTableShape` | src/App.jsx:540-550 | A created table has id n+1, the given name or `Table<n+1>`, and the kept columns in order with trimmed non-blank names. It has one empty value sequence per column and no foreign keys. |
| `Tables.NewTableKey` | src/App.jsx:549 | The chosen key is kept exactly when it names a column of the new table, so the key always resolves. |
| `Tables.PaddedKeyColumnLosesKey` | src/App.jsx:549 | As written, a column typed " id" and chosen as key "id" produces a table with column "id" and no key; the corrected creation keeps the key. |
| `Tables.AddColumn` | src/App.jsx:44-52 | Column addition on one node. |
| `Tables.AddColumnSpec` | src/App.jsx:44-52 | One column and one empty value sequence are appended. The id, name, key, foreign keys and existing columns and values are kept. Equal lengths survive exactly when the table has no rows. |
| `Tables.RemoveAtSpec` | src/App.jsx:85-86 | `filter((_, i) => i !== idx)` drops exactly position idx and shifts the rest, and an index past the end drops nothing. |
| `Tables.RemoveColumn` | src/App.jsx:80-91 | Column removal on one node. |
| `Tables.RemoveColumnSpec` | src/App.jsx:80-91 | Column idx and its values go in lock step, and the other columns keep their values. The key is cleared exactly when it named the removed column, and a resolving key still resolves. The id, name and foreign keys are kept, so foreign keys on the removed column are not cascaded. |
| `Tables.RemoveColumnOutOfRange` | src/App.jsx:84-88 | Removing an index past the end changes nothing. |
| `Tables.ColumnEditsKeepValues` | src/App.jsx:60-78 | A column rename or retype changes only the addressed column's name or type. Id, table name, values, key and foreign keys are kept, so values are never re-checked and the key does not follow a renamed column. |
| `Tables.RenameTableUndo` | src/App.jsx:54-58 | A rename changes only the table name, and renaming back restores the node. |
| `Tables.RepairValues` | src/App.jsx:116-120 | The repaired storage has one sequence per column, existing ones kept and missing ones empty. |
| `Tables.AddRow` | src/App.jsx:110-158 | Row addition on one node, with its alerts as error values. |
| `Tables.AddRowRejections` | src/App.jsx:130-148 | A blank key cell rejects with an empty-key alert, and a key equal after trimming to a stored key rejects with a duplicate alert. An all-blank row without a key is ignored. A row is rejected exactly when the table has a key and the key cell is blank or taken. |
| `Tables.AddRowAppends` | src/App.jsx:150-155 | An accepted row appends one untrimmed cell ("" for missing) to every column and changes nothing else. The node is unchanged exactly in the ignored case. |
| `Tables.AddRowKeepsRectangular` | src/App.jsx:110-158 | Adding a row keeps equal lengths and adds exactly one row when taken. |
| `Tables.AddRowKeepsKeyIntegrity` | src/App.jsx:136-148 | The key column stays free of blank and duplicate (after trim) values. |
| `Tables.UpdateCell` | src/App.jsx:160-186 | Cell update on one node. |
| `Tables.UpdateCellSpec` | src/App.jsx:160-186 | A refused value leaves the node unchanged. An accepted one changes exactly the addressed cell, to the untrimmed text. |
| `Tables.UpdateCellSkipsKeyCheck` | src/App.jsx:160-186 | A key cell can be blanked by an update, breaking key integrity. |
| `Tables.RemoveRow` | src/App.jsx:188-196 | Row removal on one node. |
| `Tables.RemoveRowSpec` | src/App.jsx:188-196 | Every value sequence loses position rowIdx, whatever its length: a sequence long enough shortens by one with later rows shifted up, and a shorter one is unchanged. The rest of the node is kept, and on a table with equal lengths they stay equal and drop by one. |
| `Tables.RemoveRowKeepsKeyIntegrity` | src/App.jsx:188-196 | Removing a row keeps the key column free of blank and duplicate values. |
| `Tables.SetPrimaryKeyUnchecked` | src/App.jsx:198-202 | Only the key changes. It resolves afterwards exactly when it is "" or names a column. |
| `Tables.ForeignKeyAppended` | src/App.jsx:205-214 | One foreign key is appended last and nothing else changes. The same key added twice is stored twice. |
| `Snapshot.EditTables` | src/App.jsx:44-214 | A handler call as `nds.map` over the nodes by id. |
| `Snapshot.AfterKeepsShape` | src/App.jsx:44-214 | No handler changes a node id, and every handler keeps one value sequence per column. All but add-column on a table with rows keep equal lengths. Only add-row raises an alert. |
| `Snapshot.IdsUnique` | src/App.jsx:540 | In a well-formed store no two nodes share an id. |
| `Snapshot.EditTouchesOne` | src/App.jsx:110-158 | A handler call replaces exactly the addressed node by its edited form and raises at most that node's one alert. |
| `Snapshot.EditUnknownId` | src/App.jsx:54-58 | A call for an id no node has changes nothing and raises nothing. |
| `Snapshot.EditKeepsInvariant` | src/App.jsx:44-214 | Every handler keeps the ids and the one-sequence-per-column shape. |
| `Snapshot.EditKeepsRectangular` | src/App.jsx:44-214 | Equal lengths everywhere survive any handler except add-column on a table with rows. |
| `Snapshot.AddTable` | src/App.jsx:534-553 | Table creation on the node list, using creation as written. |
| `Snapshot.AddTableSpec` | src/App.jsx:534-553 | Creation fails exactly when all draft names are blank. Otherwise it appends one table with a fresh id and no rows, keeping the existing tables and a well-formed store. The key is kept exactly when it equals an untrimmed kept draft name, and it resolves whenever the chosen key has no surrounding white space. |
| `Snapshot.AppendNext` | src/App.jsx:534-553 | A table numbered after the existing ones is appended without disturbing them, its id is new, and the store stays well formed. |
| `Snapshot.LastIndexOf` | src/App.jsx:216-221 | The lookup finds the last node with the id, or -1 exactly when none has it. |
| `Snapshot.LookupFinds` | src/App.jsx:216-221 | In a well-formed store the lookup finds the one node with the id. |
| `Connection.HandleColumnAsWritten` | src/App.jsx:423-424 | The column read from a handle as the code does it, the second ':'-segment; `Connect` uses this one. |
| `Connection.HandleColumn` | src/TableNode.jsx:162-163 | The column read from a handle as the handle format intends, everything between the first and last ':'. |
| `Connection.HandleColumnAsWrittenReads` | src/App.jsx:423-424 | For a table id without ':', the column read from a handle is the part of the column name before its first ':'. |
| `Connection.NoColumnIff` | src/App.jsx:423-425 | The column read from a handle is "" exactly when the handle has no ':' or its column segment is empty. |
| `Connection.ClearedColumnHandle` | src/TableNode.jsx:162-163 | A handle built for the empty column name carries no column. |
| `Connection.Connect` | src/App.jsx:418-431 | The foreign-key part of a connection. |
| `Connection.HandleRoundTrip` | src/TableNode.jsx:162-163 | The column part read back from a handle id is the column name, whatever it contains. |
| `Connection.ColonColumnTruncated` | src/App.jsx:423-424 | As written, a column named `p:q` is read back as `p`; the corrected reading gives `p:q`. |
| `Connection.MalformedHandleHasNoColumn` | src/App.jsx:423-425 | A missing handle, or one without ':', carries no column. |
| `Connection.ConnectAddsForeignKey` | src/App.jsx:418-431 | Connecting two column handles appends exactly one foreign key to the target table and to no other. It reads only each column name's part before its first ':'; when either part is empty nothing changes. For names without ':' the key is `tCol -> source.sCol`. |
| `Connection.IncompleteConnectionIgnored` | src/App.jsx:425-428 | A connection missing an end, or whose handle has no column segment or an empty one ("1::target"), changes no table. |
| `SqlExport.BooleanSqlAsWritten` | src/App.jsx:223-228 | `toBooleanSQL` as the code does it, on the untrimmed text; `CellSql` uses this one. |
| `SqlExport.BooleanSql` | src/App.jsx:223-228 | `toBooleanSQL` with the text trimmed first, as the edit check does. |
| `SqlExport.BooleanSqlAsWrittenSpec` | src/App.jsx:223-228 | The export is TRUE, FALSE or NULL: TRUE exactly for the lower-cased words true, 1, yes; FALSE exactly for false, 0, no. A non-NULL export comes from a non-empty text with no surrounding white space that passes the BOOLEAN check. |
| `SqlExport.CellSql` | src/App.jsx:256-262 | One cell of an INSERT. |
| `SqlExport.QuoteTextRoundTrip` | src/App.jsx:261 | A quoted text cell reads back as exactly the stored text, and the reader stops right after it. |
| `SqlExport.BooleanSqlAgreesWithCheck` | src/App.jsx:223-228 | A BOOLEAN exports as TRUE, FALSE or NULL. It is not NULL exactly when the cell is non-blank and passes the BOOLEAN check. |
| `SqlExport.PaddedBooleanExportsNull` | src/App.jsx:223-228 | As written, " yes" passes the BOOLEAN check yet exports as NULL; trimmed, it exports as TRUE. |
| `SqlExport.CellSqlSpec` | src/App.jsx:256-262 | A missing or "" cell gives NULL, and INTEGER and REAL cells are emitted verbatim. BOOLEAN is not NULL exactly when the untrimmed, lower-cased text is one of the six words, and then it passes the BOOLEAN check. TEXT gives a literal that reads back exactly. |
| `SqlExport.MaxRows` | src/App.jsx:254 | The row count is the maximum length over all value sequences (0 for none). |
| `SqlExport.MaxRowsOfRectangular` | src/App.jsx:254 | With equal lengths the row count is that length. |
| `SqlExport.BuildInserts` | src/App.jsx:253-264 | The loop pushes one INSERT per row index below the maximum length, in order. |
| `SqlExport.EmitTableBlock` | src/App.jsx:233-266 | One table's block is its CREATE TABLE statement followed by its INSERTs. |
| `SqlExport.InsertsOfRectangular` | src/App.jsx:255-264 | With equal lengths there is one INSERT per row, and each cell is read from a stored value. |
| `SqlExport.ColumnDefMarksKey` | src/App.jsx:239-241 | A column definition ends in PRIMARY KEY exactly when the key names that column. |
| `SqlExport.RefTableNameSpec` | src/App.jsx:245 | A reference names the referenced table when it exists and has a name, and falls back to the raw id otherwise. |
| `SqlExport.ConstraintsIffForeignKeys` | src/App.jsx:243-250 | A constraint section is emitted exactly when the table has a foreign key. |
| `SqlExport.SqlScript` | src/App.jsx:231-269 | The SQL script: the tables' blocks joined by blank lines. |
| `SqlExport.GenerateSql` | src/App.jsx:231-269 | The export is the tables' statements in node order, separated by blank lines. |
| `SqlExport.SqlScriptShape` | src/App.jsx:231-269 | The script is "" exactly for an empty schema. Otherwise it starts with the first table's CREATE TABLE statement. |
| `ErdExport.ErdText` | src/App.jsx:272-321 | The diagram text. |
| `ErdExport.EntityLines` | src/App.jsx:281-302 | The lines pushed for one table. |
| `ErdExport.RelLine` | src/App.jsx:306-316 | The line pushed for one foreign key. |
| `ErdExport.Sanitize` | src/App.jsx:282 | Each character outside `[A-Za-z0-9_]` becomes `_` and every other character stays, so the length is kept. |
| `ErdExport.SanitizeIsIdent` | src/App.jsx:294 | A sanitised name consists of identifier characters only. |
| `ErdExport.SanitizeIdempotent` | src/App.jsx:311-312 | Sanitising twice is sanitising once. |
| `ErdExport.SanitizeFixpoint` | src/App.jsx:282 | A name is unchanged exactly when it is already an identifier. |
| `ErdExport.AttrLineWords` | src/App.jsx:291-297 | An attribute line reads as indentation, the type and the sanitised name, plus the word PK exactly for the primary-key column. |
| `ErdExport.AttrLineChars` | src/App.jsx:291-297 | Attribute lines hold only spaces and identifier characters. |
| `ErdExport.EntityAttributes` | src/App.jsx:291-302 | The attribute block of a table splits back into one line per column, in order. |
| `ErdExport.ParentNameSpec` | src/App.jsx:306-311 | A relationship names its parent by the table's entity name, or by the raw id when the table does not exist. |
| `ErdExport.RelLabelIff` | src/App.jsx:313 | The label is the bare column name exactly when both ends share it. |
| `ErdExport.RelLineWords` | src/App.jsx:316 | A relationship line starts with the parent, the fixed one-to-one token, the child and a colon. |
| `ErdExport.RelSectionCount` | src/App.jsx:307-318 | There is one relationship line per stored foreign key. |
| `ErdExport.ErdTextHeader` | src/App.jsx:273-278 | The diagram always opens with the `erDiagram` line. |
| `ErdExport.PushEntities` | src/App.jsx:281-303 | The first loop pushes each table's entity block in node order. A table without columns gets the `empty` block. |
| `ErdExport.PushRelationships` | src/App.jsx:308-317 | The inner loop pushes one relationship line per foreign key, in order. |
| `ErdExport.PushAllRelationships` | src/App.jsx:306-318 | The outer relationship loop appends every table's relationship lines, in node order. |
| `ErdExport.GenerateMermaidErd` | src/App.jsx:272-321 | The two loops produce exactly the header, entity blocks and relationship lines joined by newlines. |
| `App.SchemaStore.constructor` | src/App.jsx:16 | The store starts empty and well formed. |
| `App.SchemaStore.CreateTable` | src/App.jsx:534-553 | A table is added or "no columns" is reported with the store unchanged; the result is None exactly when some draft name is non-blank. |
| `App.SchemaStore.Edit` | src/App.jsx:44-214 | A handler call yields the map-by-id result and keeps the store well formed. It raises at most one alert, only for add-row, and then the store is unchanged. |
| `App.SchemaStore.HandleAddColumn` | src/App.jsx:44-52 | The store after the call is the column addition applied to the addressed node. |
| `App.SchemaStore.HandleRenameTable` | src/App.jsx:54-58 | The store after the call is the rename applied to the addressed node. |
| `App.SchemaStore.HandleRenameColumn` | src/App.jsx:60-68 | The store after the call is the column rename applied to the addressed node. |
| `App.SchemaStore.HandleChangeColumnType` | src/App.jsx:70-78 | The store after the call is the retype applied to the addressed node. |
| `App.SchemaStore.HandleRemoveColumn` | src/App.jsx:80-91 | The store after the call is the column removal applied to the addressed node. |
| `App.SchemaStore.HandleAddRow` | src/App.jsx:110-158 | The store after the call is the row addition applied to the addressed node. An alert leaves the store unchanged. |
| `App.SchemaStore.HandleUpdateCell` | src/App.jsx:160-186 | The store after the call is the cell update applied to the addressed node. |
| `App.SchemaStore.HandleRemoveRow` | src/App.jsx:188-196 | The store after the call is the row removal applied to the addressed node. |
| `App.SchemaStore.HandleSetPrimaryKey` | src/App.jsx:198-202 | The store after the call is the key change applied to the addressed node. |
| `App.SchemaStore.AddForeignKey` | src/App.jsx:205-214 | The store after the call is the foreign key appended to the child node. |
| `App.SchemaStore.OnConnect` | src/App.jsx:418-431 | The store after the call is the connection's foreign-key edit, or unchanged. |
| `App.SchemaStore.GenerateSql` | src/App.jsx:231-269 | The export is the SQL script of the store, "" exactly when there are no tables. |
| `App.SchemaStore.GenerateMermaidErd` | src/App.jsx:272-321 | The export is the diagram text of the store, which starts with the `erDiagram` line. |

## Left out

- Rendering is not modelled. This covers the React and ReactFlow views, the dialogs' own state (including the key reset while typing, `src/App.jsx:489`), node positions, and the edge list kept for drawing (`addEdge`, `applyEdgeChanges`). They are user interface only. The dialog's inputs become parameters of table creation.
- Node removal and moves through `applyNodeChanges` are not modelled. The store invariant (ids `1..n`) therefore holds. With removal, `nodes.length + 1` could repeat an id, and the model does not cover that case.
- Mermaid rendering, PNG export, `Date.now()` and clipboard writes are not modelled. They are external renderers and I/O.
- `alert` calls are not modelled as output; the model returns them as error values (`Tables.RowError`, `Tables.CreateError`).
- `handleAddValue` (`src/App.jsx:93-107`) is left out. It is passed to `TableNode` (`src/App.jsx:389`), but `TableNode` never reads that prop (`src/TableNode.jsx:4`), so nothing can call it.
- `Strings.LowerAscii` lower-cases ASCII letters only, where `toLowerCase` follows Unicode. This is exact for the BOOLEAN words, but a non-ASCII letter may compare differently.
- `ErdExport.Sanitize` works on Unicode scalar values, where the regular expression works on UTF-16 code units. A character outside the Basic Multilingual Plane becomes one `_` here and two in the source.
- `Tables.UpdateCell` requires an existing cell. In the source, an index past the end writes a hole or extends one sequence.
- `SqlExport.SqlScript` requires at least as many value sequences as columns (`SqlExport.Exportable`). In the source a missing sequence throws. Well-formed stores always meet this.
- Column types are modelled as the four-value `SqlType`. The source stores the type as text but only ever offers these four values, so the fallbacks `|| []` and `c.type || "TEXT"` never apply.

## Findings

| source | as written | input that shows it | evidently intended | confidence | as-written member | corrected member |
|---|---|---|---|---|---|---|
| src/App.jsx:549 | The chosen key is compared with the untrimmed draft names, while the dialog offers trimmed names and the table stores trimmed names. | A column typed " id" with key "id": the table has column "id" and no primary key. | Compare with the trimmed names the table receives. | high (not executed) | `Tables.NewTableAsWritten` | `Tables.NewTable` |
| src/App.jsx:223-228 | `toBooleanSQL` lower-cases the stored text without trimming it. The cell check accepted the trimmed text, and the cell is stored untrimmed. | Cell " yes" in a BOOLEAN column: accepted by the edit, exported as NULL. | Trim before matching, as the edit check does. | high (not executed) | `SqlExport.BooleanSqlAsWritten` | `SqlExport.BooleanSql` |
| src/App.jsx:423-424 | `split(":")[1]` takes only the second segment of a `tableId:column:role` handle. | Column named "a:b": the foreign key is stored on column "a". | Take everything between the first and the last ':'. | medium (not executed) | `Connection.HandleColumnAsWritten` | `Connection.HandleColumn` |

The lemmas `Tables.PaddedKeyColumnLosesKey`, `SqlExport.PaddedBooleanExportsNull` and `Connection.ColonColumnTruncated` exhibit each discrepancy on the input named. The store and both exports follow the code as written: `Snapshot.AddTable` uses `Tables.NewTableAsWritten`, `SqlExport.CellSql` uses `SqlExport.BooleanSqlAsWritten`, and `Connection.Connect` uses `Connection.HandleColumnAsWritten`. The corrected members carry the intended properties (`Tables.NewTableKey`, `SqlExport.BooleanSqlAgreesWithCheck`, `Connection.HandleRoundTrip`), and `Tables.NewTableAsWrittenMatches` relates the two forms of table creation.
