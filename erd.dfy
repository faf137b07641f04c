/** The Mermaid export: generateMermaidERD (src/App.jsx:272-321). Each table
    becomes an entity block with one attribute line per column, and each
    foreign key a `parent ||--|| child : "label"` relationship line. */
module ErdExport {
  import opened Strings
  import opened Schema
  import opened Snapshot

  predicate IsIdentChar(c: char) {
    ('a' <= c <= 'z') || ('A' <= c <= 'Z') || ('0' <= c <= '9') || c == '_'
  }

  predicate IsIdent(s: string) {
    forall i :: 0 <= i < |s| ==> IsIdentChar(s[i])
  }

  /** `replace(/[^a-zA-Z0-9_]/g, '_')`: each character outside [A-Za-z0-9_]
      becomes '_', and every other character stays where it is. */
  function Sanitize(s: string): (r: string)
    ensures |r| == |s|
    ensures forall i :: 0 <= i < |s| ==> r[i] == if IsIdentChar(s[i]) then s[i] else '_'
  {
    if s == [] then [] else [if IsIdentChar(s[0]) then s[0] else '_'] + Sanitize(s[1..])
  }

  /** A sanitised name is an identifier. */
  lemma SanitizeIsIdent(s: string)
    ensures IsIdent(Sanitize(s))
  {
  }

  /** Sanitising twice is sanitising once. */
  lemma SanitizeIdempotent(s: string)
    ensures Sanitize(Sanitize(s)) == Sanitize(s)
  {
  }

  /** A name is left as it is exactly when it is already an identifier. */
  lemma SanitizeFixpoint(s: string)
    ensures Sanitize(s) == s <==> IsIdent(s)
  {
    if Sanitize(s) == s {
      forall i | 0 <= i < |s| ensures IsIdentChar(s[i]) {
        assert Sanitize(s)[i] == s[i];
      }
    }
  }

  /** `tableName || id`. */
  function DisplayName(t: Table): string {
    if t.name != "" then t.name else t.id
  }

  function EntityName(t: Table): string {
    Sanitize(DisplayName(t))
  }

  /** `  TYPE name`, with ` PK` when the primary key equals the column's name. */
  function AttrLine(c: Column, pk: string): string {
    "  " + TypeName(c.ty) + " " + Sanitize(c.name) + (if pk == c.name then " PK" else "")
  }

  /** Read as space-separated words, an attribute line is two empty words of
      indentation, the type, the sanitised name and, exactly for the column
      the primary key names, the word PK. */
  lemma AttrLineWords(c: Column, pk: string)
    ensures Split(AttrLine(c, pk), ' ') ==
      ["", "", TypeName(c.ty), Sanitize(c.name)] + (if pk == c.name then ["PK"] else [])
  {
    var ty := TypeName(c.ty);
    var name := Sanitize(c.name);
    assert ' ' !in ty by {
      assert forall i :: 0 <= i < |ty| ==> ty[i] != ' ';
    }
    assert ' ' !in name by {
      assert forall i :: 0 <= i < |name| ==> IsIdentChar(name[i]);
    }
    IndentedWords(ty, name, pk == c.name);
  }

  lemma IndentedWords(ty: string, name: string, flag: bool)
    requires ' ' !in ty && ' ' !in name
    ensures Split("  " + ty + " " + name + (if flag then " PK" else ""), ' ') ==
      ["", "", ty, name] + (if flag then ["PK"] else [])
  {
    var tail := if flag then " PK" else "";
    var rest := name + tail;
    var third := ty + [' '] + rest;
    var second := [] + [' '] + third;
    assert "  " + ty + " " + name + tail == [] + [' '] + second;
    SplitCons([], second, ' ');
    SplitCons([], third, ' ');
    SplitCons(ty, rest, ' ');
    var last: seq<string> := if flag then ["PK"] else [];
    if flag {
      assert rest == name + [' '] + "PK";
      SplitCons(name, "PK", ' ');
      SplitWithout("PK", ' ');
    } else {
      assert rest == name;
      SplitWithout(name, ' ');
    }
    assert Split(rest, ' ') == [name] + last;
  }

  /** An attribute line holds only spaces and identifier characters. */
  lemma AttrLineChars(c: Column, pk: string)
    ensures forall i :: 0 <= i < |AttrLine(c, pk)| ==> AttrLine(c, pk)[i] == ' ' || IsIdentChar(AttrLine(c, pk)[i])
  {
    var ty := TypeName(c.ty);
    assert forall i :: 0 <= i < |ty| ==> IsIdentChar(ty[i]);
  }

  function AttrLines(t: Table): seq<string> {
    seq(|t.columns|, i requires 0 <= i < |t.columns| => AttrLine(t.columns[i], t.primaryKey))
  }

  /** The lines pushed for one table: a single placeholder block `empty` when
      it has no columns, otherwise the opening line, the attribute lines joined
      by newlines, and the closing brace. */
  function EntityLines(t: Table): seq<string> {
    if |t.columns| == 0 then [EntityName(t) + " {\n  empty\n}"]
    else [EntityName(t) + " {", Join(AttrLines(t), "\n"), "}"]
  }

  /** The attribute block of a table with columns splits back into one line
      per column, in column order. */
  lemma EntityAttributes(t: Table)
    requires |t.columns| > 0
    ensures Split(EntityLines(t)[1], '\n') == AttrLines(t)
  {
    var lines := AttrLines(t);
    forall i | 0 <= i < |lines| ensures '\n' !in lines[i] {
      AttrLineChars(t.columns[i], t.primaryKey);
      assert forall j :: 0 <= j < |lines[i]| ==> lines[i][j] != '\n';
    }
    SplitJoin(lines, '\n');
  }

  /** The entity blocks of the first `n` tables, in node order. */
  function EntitySection(ts: seq<Table>, n: nat): seq<string>
    requires n <= |ts|
  {
    if n == 0 then [] else EntitySection(ts, n - 1) + EntityLines(ts[n - 1])
  }

  /** `parent ? sanitise(parent.tableName || parent.id) : fk.refTableId`, with
      `parent` the last node carrying the id (a Map built from the nodes). */
  function ParentName(ts: seq<Table>, id: string): string {
    var k := LastIndexOf(ts, id);
    if k >= 0 then EntityName(ts[k]) else id
  }

  /** In a well-formed store a relationship names its parent by that table's
      entity name; a dangling reference keeps the raw id, unsanitised. */
  lemma ParentNameSpec(ts: seq<Table>, id: string)
    requires StoreInvariant(ts)
    ensures forall k :: 0 <= k < |ts| && ts[k].id == id ==> ParentName(ts, id) == EntityName(ts[k])
    ensures (forall k :: 0 <= k < |ts| ==> ts[k].id != id) ==> ParentName(ts, id) == id
  {
    forall k | 0 <= k < |ts| && ts[k].id == id ensures ParentName(ts, id) == EntityName(ts[k]) {
      LookupFinds(ts, k);
    }
  }

  /** The column alone when both ends have the same name, else `col to refCol`. */
  function RelLabel(fk: ForeignKey): string {
    if fk.column == fk.refColumn then fk.column else fk.column + " to " + fk.refColumn
  }

  /** The label is the bare column name exactly when both ends share it. */
  lemma RelLabelIff(fk: ForeignKey)
    ensures RelLabel(fk) == fk.column <==> fk.column == fk.refColumn
  {
    if fk.column != fk.refColumn {
      assert |RelLabel(fk)| > |fk.column|;
    }
  }

  function RelLine(ts: seq<Table>, child: Table, fk: ForeignKey): string {
    ParentName(ts, fk.refTableId) + " ||--|| " + EntityName(child) + " : \"" + RelLabel(fk) + "\""
  }

  /** A relationship line read as words starts with the parent, the token
      `||--||`, the child and a colon, whenever the parent name has no space
      (always so when the parent table exists). */
  lemma RelLineWords(ts: seq<Table>, child: Table, fk: ForeignKey)
    requires ' ' !in ParentName(ts, fk.refTableId)
    ensures var words := Split(RelLine(ts, child, fk), ' ');
      |words| >= 5 && words[..4] == [ParentName(ts, fk.refTableId), "||--||", EntityName(child), ":"]
  {
    var c := EntityName(child);
    assert ' ' !in c by {
      assert forall i :: 0 <= i < |c| ==> IsIdentChar(c[i]);
    }
    var p := ParentName(ts, fk.refTableId);
    var q := "\"" + RelLabel(fk) + "\"";
    assert " ||--|| " == " " + "||--||" + " " && " : \"" == " " + ":" + " " + "\"";
    assert RelLine(ts, child, fk) == p + " " + "||--||" + " " + c + " " + ":" + " " + q;
    FourWords(p, "||--||", c, ":", q);
  }

  /** Four space-free words, each followed by a space, split off as the first
      four words of a line. */
  lemma FourWords(a: string, b: string, c: string, d: string, rest: string)
    requires ' ' !in a && ' ' !in b && ' ' !in c && ' ' !in d
    ensures var words := Split(a + " " + b + " " + c + " " + d + " " + rest, ' ');
      |words| >= 5 && words[..4] == [a, b, c, d]
  {
    var r3 := d + [' '] + rest;
    var r2 := c + [' '] + r3;
    var r1 := b + [' '] + r2;
    assert a + " " + b + " " + c + " " + d + " " + rest == a + [' '] + r1;
    SplitCons(a, r1, ' ');
    SplitCons(b, r2, ' ');
    SplitCons(c, r3, ' ');
    SplitCons(d, rest, ' ');
  }

  /** The relationship lines of the first `j` foreign keys of `child`. */
  function RelLines(ts: seq<Table>, child: Table, j: nat): seq<string>
    requires j <= |child.foreignKeys|
  {
    seq(j, k requires 0 <= k < j => RelLine(ts, child, child.foreignKeys[k]))
  }

  /** The relationship lines of the first `n` tables, in node order and,
      within a table, in foreign-key order. */
  function RelSection(ts: seq<Table>, n: nat): seq<string>
    requires n <= |ts|
  {
    if n == 0 then [] else RelSection(ts, n - 1) + RelLines(ts, ts[n - 1], |ts[n - 1].foreignKeys|)
  }

  function ForeignKeyCount(ts: seq<Table>, n: nat): nat
    requires n <= |ts|
  {
    if n == 0 then 0 else ForeignKeyCount(ts, n - 1) + |ts[n - 1].foreignKeys|
  }

  /** One relationship line per stored foreign key. */
  lemma {:induction false} RelSectionCount(ts: seq<Table>, n: nat)
    requires n <= |ts|
    ensures |RelSection(ts, n)| == ForeignKeyCount(ts, n)
  {
    if n > 0 {
      RelSectionCount(ts, n - 1);
    }
  }

  /** generateMermaidERD: a fixed text for an empty schema, otherwise the
      header, the entity blocks and the relationship lines joined by newlines. */
  function ErdText(ts: seq<Table>): string {
    if |ts| == 0 then "erDiagram\n  No tables found"
    else Join(ErdLines(ts), "\n")
  }

  /** The lines of a non-empty diagram, before they are joined. */
  function ErdLines(ts: seq<Table>): seq<string> {
    ["erDiagram"] + EntitySection(ts, |ts|) + RelSection(ts, |ts|)
  }

  /** The diagram always opens with the `erDiagram` header line. */
  lemma ErdTextHeader(ts: seq<Table>)
    ensures |ErdText(ts)| >= 10 && ErdText(ts)[..10] == "erDiagram\n"
  {
    if |ts| > 0 {
      var lines := ErdLines(ts);
      assert |lines| > 1 by {
        assert |EntityLines(ts[|ts| - 1])| > 0;
      }
      assert Join(lines, "\n") == "erDiagram" + "\n" + Join(lines[1..], "\n");
    }
  }

  /** The first `forEach`: the entity block of each table, in node order. */
  method PushEntities(ts: seq<Table>, header: seq<string>) returns (lines: seq<string>)
    ensures lines == header + EntitySection(ts, |ts|)
  {
    lines := header;
    for i := 0 to |ts|
      invariant lines == header + EntitySection(ts, i)
    {
      var n := ts[i];
      var tableName := Sanitize(if n.name != "" then n.name else n.id);
      if |n.columns| == 0 {
        lines := lines + [tableName + " {\n  empty\n}"];
      } else {
        var attrs := Join(seq(|n.columns|, j requires 0 <= j < |n.columns| => AttrLine(n.columns[j], n.primaryKey)), "\n");
        lines := lines + [tableName + " {", attrs, "}"];
      }
      AppendAssoc(header, EntitySection(ts, i), EntityLines(ts[i]));
    }
  }

  /** The inner `forEach`: one relationship line per foreign key of `child`. */
  method PushRelationships(ts: seq<Table>, child: Table, before: seq<string>) returns (lines: seq<string>)
    ensures lines == before + RelLines(ts, child, |child.foreignKeys|)
  {
    lines := before;
    var fks := child.foreignKeys;
    for j := 0 to |fks|
      invariant lines == before + RelLines(ts, child, j)
    {
      var fk := fks[j];
      var parentName := ParentName(ts, fk.refTableId);
      var childName := Sanitize(if child.name != "" then child.name else child.id);
      var relLabel := if fk.column == fk.refColumn then fk.column else fk.column + " to " + fk.refColumn;
      lines := lines + [parentName + " ||--|| " + childName + " : \"" + relLabel + "\""];
      assert RelLines(ts, child, j + 1) == RelLines(ts, child, j) + [RelLine(ts, child, fk)];
    }
  }

  /** The second `forEach`: the relationship lines of every table, in node order. */
  method PushAllRelationships(ts: seq<Table>, before: seq<string>) returns (lines: seq<string>)
    ensures lines == before + RelSection(ts, |ts|)
  {
    lines := before;
    for i := 0 to |ts|
      invariant lines == before + RelSection(ts, i)
    {
      lines := PushRelationships(ts, ts[i], lines);
      AppendAssoc(before, RelSection(ts, i), RelLines(ts, ts[i], |ts[i].foreignKeys|));
    }
  }

  /** generateMermaidERD: the placeholder for an empty canvas, otherwise the two
      `forEach` loops pushing into `lines`, joined by newlines. */
  method GenerateMermaidErd(ts: seq<Table>) returns (text: string)
    ensures text == ErdText(ts)
  {
    if |ts| == 0 {
      return "erDiagram\n  No tables found";
    }
    var lines := PushEntities(ts, ["erDiagram"]);
    lines := PushAllRelationships(ts, lines);
    assert lines == ErdLines(ts);
    text := Join(lines, "\n");
  }
}
