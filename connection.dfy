/** onConnect (src/App.jsx:418-431): a ReactFlow connection between two column
    handles becomes a foreign key stored on the connection's target table.
    Handles are named `tableId:column:role` (src/TableNode.jsx:162-163). */
module Connection {
  import opened Strings
  import opened Results
  import opened Schema
  import opened Snapshot

  /** The id TableNode gives the handle of column `column` of node `tableId`;
      `role` is "source" or "target". */
  function HandleId(tableId: string, column: string, role: string): string {
    tableId + ":" + column + ":" + role
  }

  /** The column part as onConnect reads it: `(h || '').split(":")[1]`, with a
      missing second segment read as "". */
  function HandleColumnAsWritten(handle: Option<string>): string {
    var parts := Split(handle.GetOr(""), ':');
    if |parts| >= 2 then parts[1] else ""
  }

  /** The column part with everything between the first and the last ':'
      kept, so that a column name containing ':' survives; a two-segment
      handle `tableId:column` still yields its second segment. */
  function HandleColumn(handle: Option<string>): string {
    var parts := Split(handle.GetOr(""), ':');
    if |parts| < 2 then ""
    else if |parts| == 2 then parts[1]
    else Join(parts[1..|parts| - 1], ":")
  }

  /** onConnect: when source and target nodes are given and both handles carry
      a column (as split(":")[1] reads it), the target (child) gets the foreign
      key `tCol -> source.sCol`; otherwise no table changes. */
  function Connect(ts: seq<Table>, source: string, target: string,
                   sourceHandle: Option<string>, targetHandle: Option<string>): seq<Table>
  {
    var sCol := HandleColumnAsWritten(sourceHandle);
    var tCol := HandleColumnAsWritten(targetHandle);
    if source != "" && target != "" && sCol != "" && tCol != "" then
      EditTables(ts, target, AddForeignKey(tCol, source, sCol))
    else ts
  }

  /** The column part of a TableNode handle is the column name, whatever it
      contains, as long as the node id and the role contain no ':'. */
  lemma HandleRoundTrip(tableId: string, column: string, role: string)
    requires ':' !in tableId && ':' !in role
    ensures HandleColumn(Some(HandleId(tableId, column, role))) == column
  {
    var h := HandleId(tableId, column, role);
    assert h == tableId + [':'] + (column + [':'] + role);
    SplitConcat(tableId, column + [':'] + role, ':');
    SplitConcat(column, role, ':');
    SplitWithout(tableId, ':');
    SplitWithout(role, ':');
    var parts := Split(h, ':');
    assert parts == [tableId] + Split(column, ':') + [role];
    assert parts[1..|parts| - 1] == Split(column, ':');
    JoinSplit(column, ':');
  }

  /** The discrepancy of the as-written reading: a column named `p:q` yields
      only `p`, so the foreign key is stored against a column that may not exist. */
  lemma ColonColumnTruncated(tableId: string, p: string, q: string, role: string)
    requires ':' !in tableId && ':' !in p && ':' !in role
    ensures HandleColumnAsWritten(Some(HandleId(tableId, p + ":" + q, role))) == p
    ensures HandleColumn(Some(HandleId(tableId, p + ":" + q, role))) == p + ":" + q
  {
    var h := HandleId(tableId, p + ":" + q, role);
    assert h == tableId + [':'] + (p + [':'] + (q + ":" + role));
    SplitCons(tableId, p + [':'] + (q + ":" + role), ':');
    SplitCons(p, q + ":" + role, ':');
    HandleRoundTrip(tableId, p + ":" + q, role);
  }

  /** As written, the column read from a TableNode handle is the column name
      up to its first ':'. */
  lemma HandleColumnAsWrittenReads(tableId: string, column: string, role: string)
    requires ':' !in tableId
    ensures HandleColumnAsWritten(Some(HandleId(tableId, column, role))) == Split(column, ':')[0]
  {
    var h := HandleId(tableId, column, role);
    assert h == tableId + [':'] + (column + [':'] + role);
    SplitCons(tableId, column + [':'] + role, ':');
    SplitConcat(column, role, ':');
  }

  /** The second ':'-separated segment of the handle is empty: there is no
      ':' at all, or the first ':' ends the handle or is followed by another. */
  predicate NoColumnSegment(handle: Option<string>) {
    var h := handle.GetOr("");
    var i := FirstIndexOf(h, ":");
    i == |h| || i + 1 == |h| || h[i + 1] == ':'
  }

  /** The first piece of a split is empty exactly when the text is empty or
      starts with the separator. */
  lemma SplitHeadEmpty(s: string, c: char)
    ensures Split(s, c)[0] == "" <==> s == [] || s[0] == c
  {
  }

  /** As written, a handle yields no column exactly when its second segment
      is empty. */
  lemma NoColumnIff(handle: Option<string>)
    ensures HandleColumnAsWritten(handle) == "" <==> NoColumnSegment(handle)
  {
    var h := handle.GetOr("");
    var i := FirstIndexOf(h, ":");
    if i == |h| {
      assert ':' !in h;
      SplitWithout(h, ':');
    } else {
      var rest := h[i + 1..];
      assert h == h[..i] + [':'] + rest;
      assert ':' !in h[..i];
      SplitCons(h[..i], rest, ':');
      SplitHeadEmpty(rest, ':');
    }
  }

  /** A handle of a column whose name was cleared, `tableId::role`, has an
      empty column segment. */
  lemma ClearedColumnHandle(tableId: string, role: string)
    requires ':' !in tableId
    ensures NoColumnSegment(Some(HandleId(tableId, "", role)))
  {
    var h := HandleId(tableId, "", role);
    assert h[|tableId|] == ':' && h[|tableId| + 1] == ':';
    assert h[..|tableId|] == tableId;
  }

  /** A handle without ':' (or no handle at all) carries no column. */
  lemma MalformedHandleHasNoColumn(handle: Option<string>)
    requires ':' !in handle.GetOr("")
    ensures HandleColumn(handle) == "" && HandleColumnAsWritten(handle) == ""
  {
    SplitWithout(handle.GetOr(""), ':');
  }

  /** Dragging from column `sCol` of node `source` to column `tCol` of node
      `target` appends the foreign key to the target table and to no other
      table, with each column read up to its first ':'; when either read is
      empty no table changes. Nothing is checked against the parent's columns
      and existing foreign keys are not de-duplicated. For column names
      without ':' the stored key is exactly `tCol -> source.sCol`. */
  lemma ConnectAddsForeignKey(ts: seq<Table>, s: string, k: nat, sCol: string, tCol: string)
    requires StoreInvariant(ts) && k < |ts|
    requires s != "" && ':' !in s
    ensures var r := Connect(ts, s, ts[k].id, Some(HandleId(s, sCol, "source")), Some(HandleId(ts[k].id, tCol, "target")));
      var sc := Split(sCol, ':')[0];
      var tc := Split(tCol, ':')[0];
      && (sc != "" && tc != "" ==>
        && |r| == |ts|
        && r[k] == ts[k].(foreignKeys := ts[k].foreignKeys + [ForeignKey(tc, s, sc)])
        && forall i :: 0 <= i < |ts| && i != k ==> r[i] == ts[i])
      && (sc == "" || tc == "" ==> r == ts)
    ensures ':' !in sCol && ':' !in tCol && sCol != "" && tCol != "" ==>
      Connect(ts, s, ts[k].id, Some(HandleId(s, sCol, "source")), Some(HandleId(ts[k].id, tCol, "target")))[k]
        == ts[k].(foreignKeys := ts[k].foreignKeys + [ForeignKey(tCol, s, sCol)])
  {
    var t := ts[k].id;
    assert ':' !in t by {
      assert forall i :: 0 <= i < |t| ==> '0' <= t[i] <= '9';
    }
    var sh := Some(HandleId(s, sCol, "source"));
    var th := Some(HandleId(t, tCol, "target"));
    HandleColumnAsWrittenReads(s, sCol, "source");
    HandleColumnAsWrittenReads(t, tCol, "target");
    var sc := Split(sCol, ':')[0];
    var tc := Split(tCol, ':')[0];
    if ':' !in sCol {
      SplitWithout(sCol, ':');
    }
    if ':' !in tCol {
      SplitWithout(tCol, ':');
    }
    if sc != "" && tc != "" {
      ConnectToTarget(ts, s, k, sh, th, sc, tc);
    } else {
      NoColumnIff(sh);
      NoColumnIff(th);
      IncompleteConnectionIgnored(ts, s, t, sh, th);
    }
  }

  /** A complete connection into node `k` changes that node alone, by one
      appended foreign key. */
  lemma ConnectToTarget(ts: seq<Table>, source: string, k: nat,
                        sourceHandle: Option<string>, targetHandle: Option<string>, sCol: string, tCol: string)
    requires StoreInvariant(ts) && k < |ts|
    requires source != "" && sCol != "" && tCol != ""
    requires HandleColumnAsWritten(sourceHandle) == sCol && HandleColumnAsWritten(targetHandle) == tCol
    ensures var r := Connect(ts, source, ts[k].id, sourceHandle, targetHandle);
      && |r| == |ts|
      && r[k] == ts[k].(foreignKeys := ts[k].foreignKeys + [ForeignKey(tCol, source, sCol)])
      && forall i :: 0 <= i < |ts| && i != k ==> r[i] == ts[i]
  {
    assert ts[k].id != "" by {
      assert |ts[k].id| > 0;
    }
    ConnectWithColumns(ts, source, ts[k].id, sourceHandle, targetHandle, sCol, tCol);
    EditTouchesOne(ts, k, AddForeignKey(tCol, source, sCol));
  }

  /** With both ends and both columns present, onConnect is the edit that
      appends the foreign key to the target. */
  lemma ConnectWithColumns(ts: seq<Table>, source: string, target: string,
                           sourceHandle: Option<string>, targetHandle: Option<string>, sCol: string, tCol: string)
    requires source != "" && target != "" && sCol != "" && tCol != ""
    requires HandleColumnAsWritten(sourceHandle) == sCol && HandleColumnAsWritten(targetHandle) == tCol
    ensures Connect(ts, source, target, sourceHandle, targetHandle) == EditTables(ts, target, AddForeignKey(tCol, source, sCol))
  {
  }

  /** When an end is missing, or either handle has an empty column segment
      (no ':' at all, or a column renamed to ""), no table changes. */
  lemma IncompleteConnectionIgnored(ts: seq<Table>, source: string, target: string,
                                    sourceHandle: Option<string>, targetHandle: Option<string>)
    requires source == "" || target == "" || NoColumnSegment(sourceHandle) || NoColumnSegment(targetHandle)
    ensures Connect(ts, source, target, sourceHandle, targetHandle) == ts
  {
    NoColumnIff(sourceHandle);
    NoColumnIff(targetHandle);
  }
}
