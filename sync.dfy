/**
 * The table loop of sync_db. For every table of the new database it either
 * diffs the column names against the old database's copy of the table and
 * emits ADD / DROP COLUMN lines (and ADD CONSTRAINT lines), or, when the old
 * lookup failed, emits the CREATE TABLE line cut from the dump and a DROP
 * TABLE undo line. Four append-only line buffers and two counters make up the
 * run's state; a summary is chosen from the counters at the end.
 */
module Sync {
  import opened Wrappers
  import opened Text
  import opened Statements

  /** A new-side table: its name, its reflected columns and its foreign keys. */
  datatype Table = Table(name: string, columns: seq<Column>, foreignKeys: seq<ForeignKey>)

  /**
   * Everything the loop reads for one table: the new-side table, the
   * old-side columns (None when the old lookup failed) and the text the dump
   * tool returns for the table (read only when the lookup failed).
   */
  datatype TableInput = TableInput(table: Table, oldColumns: Option<seq<Column>>, dump: string)

  /** The run's outputs: the four line buffers and the two counters. */
  datatype Output = Output(
    newColumns: seq<string>,
    undoColumns: seq<string>,
    newTables: seq<string>,
    undoTables: seq<string>,
    missingTables: nat,
    missingColumns: nat)

  const Empty: Output := Output([], [], [], [], 0, 0)

  /** The summary printed at the end of the run. */
  datatype Summary = InSync | Missing(tables: nat, columns: nat)

  // ------------------------------------------------------------ column diff

  function Names(cols: seq<Column>): set<string>
  {
    set c | c in cols :: c.name
  }

  /** No later column carries the same name as cols[i]. */
  predicate LastWithName(cols: seq<Column>, i: nat)
    requires i < |cols|
  {
    forall j :: i < j < |cols| ==> cols[j].name != cols[i].name
  }

  /**
   * The dict built from a reflected column list, keyed by column name; when
   * two columns share a name the later one wins.
   */
  function ColumnsByName(cols: seq<Column>): (m: map<string, Column>)
    ensures m.Keys == Names(cols)
    ensures forall k :: k in m ==> m[k].name == k
  {
    if cols == [] then map[]
    else
      var n := |cols| - 1;
      NamesSnoc(cols);
      ColumnsByName(cols[..n])[cols[n].name := cols[n]]
  }

  lemma NamesSnoc(cols: seq<Column>)
    requires cols != []
    ensures Names(cols) == Names(cols[..|cols| - 1]) + {cols[|cols| - 1].name}
  {
    assert cols == cols[..|cols| - 1] + [cols[|cols| - 1]];
  }

  /** Of several columns sharing a name, the dict keeps the last one. */
  lemma {:induction false} ColumnsByNameLastWins(cols: seq<Column>, i: nat)
    requires i < |cols| && LastWithName(cols, i)
    ensures ColumnsByName(cols)[cols[i].name] == cols[i]
  {
    var n := |cols| - 1;
    if i < n {
      ColumnsByNameLastWins(cols[..n], i);
    }
  }

  lemma DiffEmpty(a: set<string>, b: set<string>)
    ensures a - b == {} <==> a <= b
  {
    if a - b == {} {
      forall x | x in a
        ensures x in b
      {
        assert x !in a - b;
      }
    }
  }

  /** The names of the new side's columns that the old side lacks. */
  function ColumnDiff(newCols: seq<Column>, oldCols: seq<Column>): (d: set<string>)
    ensures d == Names(newCols) - Names(oldCols)
    ensures forall c :: c in d ==> c in ColumnsByName(newCols)
  {
    ColumnsByName(newCols).Keys - ColumnsByName(oldCols).Keys
  }

  function Diff(input: TableInput): set<string>
    requires input.oldColumns.Some?
  {
    ColumnDiff(input.table.columns, input.oldColumns.value)
  }

  predicate Distinct(xs: seq<string>)
  {
    forall i, j :: 0 <= i < j < |xs| ==> xs[i] != xs[j]
  }

  /** `order` lists every element of `s` exactly once: one iteration order of the set. */
  predicate IsOrderOf(order: seq<string>, s: set<string>)
  {
    Distinct(order) && (set x | x in order) == s
  }

  lemma {:induction false} OrderLength(order: seq<string>, s: set<string>)
    requires IsOrderOf(order, s)
    ensures |order| == |s|
  {
    if order != [] {
      var n := |order| - 1;
      var rest := order[..n];
      assert order == rest + [order[n]];
      assert (set x | x in rest) == s - {order[n]} by {
        forall x | x in rest ensures x != order[n] {
          var k :| 0 <= k < n && rest[k] == x;
        }
      }
      OrderLength(rest, s - {order[n]});
    } else {
      assert forall x :: x !in s;
    }
  }

  // ------------------------------------------------------- per-table effects

  /** The new-columns lines for one missing column: its ADD line, then its FK line if any. */
  function ColumnAddLines(t: Table, c: Column): seq<string>
  {
    var fk := LastFkStatement(t.name, t.foreignKeys, c.name);
    [AddColumnLine(t.name, c)] + (if fk == "" then [] else [fk])
  }

  /** One missing column's effect: its new-columns lines, its DROP COLUMN line, one more missing column. */
  function ColumnStep(out: Output, t: Table, c: Column): Output
  {
    out.(newColumns := out.newColumns + ColumnAddLines(t, c),
         undoColumns := out.undoColumns + [DropColumnStatement(t.name, c.name)],
         missingColumns := out.missingColumns + 1)
  }

  /** The effect of a table's missing columns, visited in `order`. */
  function ColumnsStep(out: Output, t: Table, cols: map<string, Column>, order: seq<string>): Output
    requires forall i :: 0 <= i < |order| ==> order[i] in cols
  {
    if order == [] then out
    else ColumnStep(ColumnsStep(out, t, cols, order[..|order| - 1]), t, cols[order[|order| - 1]])
  }

  /**
   * The effect of a table missing from the old side: its CREATE TABLE line,
   * its DROP TABLE line, one more missing table.
   */
  function TableStep(out: Output, t: Table, dump: string): Output
  {
    out.(newTables := out.newTables + [CreateTableLine(dump)],
         undoTables := out.undoTables + [DropTableStatement(t.name)],
         missingTables := out.missingTables + 1)
  }

  lemma ColumnsStepSnoc(out: Output, t: Table, cols: map<string, Column>, order: seq<string>, c: string)
    requires forall i :: 0 <= i < |order| ==> order[i] in cols
    requires c in cols
    ensures forall i :: 0 <= i < |order + [c]| ==> (order + [c])[i] in cols
    ensures ColumnsStep(out, t, cols, order + [c]) == ColumnStep(ColumnsStep(out, t, cols, order), t, cols[c])
  {
    assert (order + [c])[..|order|] == order;
  }

  lemma OrderSnoc(order: seq<string>, c: string, done: set<string>)
    requires IsOrderOf(order, done) && c !in done
    ensures IsOrderOf(order + [c], done + {c})
  {
  }

  /** An order is valid for a table when it visits exactly its missing columns. */
  predicate ValidOrder(input: TableInput, order: seq<string>)
  {
    match input.oldColumns
    case None => order == []
    case Some(_) => IsOrderOf(order, Diff(input))
  }

  /** The effect of one table on the run's outputs, with its missing columns visited in `order`. */
  function Step(out: Output, input: TableInput, order: seq<string>): Output
    requires ValidOrder(input, order)
  {
    match input.oldColumns
    case None => TableStep(out, input.table, input.dump)
    case Some(_) => ColumnsStep(out, input.table, ColumnsByName(input.table.columns), order)
  }

  predicate ValidOrders(inputs: seq<TableInput>, orders: seq<seq<string>>)
  {
    |orders| == |inputs| && forall i :: 0 <= i < |inputs| ==> ValidOrder(inputs[i], orders[i])
  }

  /** The outputs of a whole run over the new side's tables, in order. */
  function Run(inputs: seq<TableInput>, orders: seq<seq<string>>): Output
    requires ValidOrders(inputs, orders)
  {
    if inputs == [] then Empty
    else
      var n := |inputs| - 1;
      Step(Run(inputs[..n], orders[..n]), inputs[n], orders[n])
  }

  lemma RunSnoc(inputs: seq<TableInput>, orders: seq<seq<string>>, input: TableInput, order: seq<string>)
    requires ValidOrders(inputs, orders) && ValidOrder(input, order)
    ensures ValidOrders(inputs + [input], orders + [order])
    ensures Run(inputs + [input], orders + [order]) == Step(Run(inputs, orders), input, order)
  {
    assert (inputs + [input])[..|inputs|] == inputs;
    assert (orders + [order])[..|orders|] == orders;
  }

  lemma RunPrefixStep(inputs: seq<TableInput>, orders: seq<seq<string>>, i: nat, order: seq<string>)
    requires i < |inputs| && ValidOrders(inputs[..i], orders) && ValidOrder(inputs[i], order)
    ensures ValidOrders(inputs[..i + 1], orders + [order])
    ensures Run(inputs[..i + 1], orders + [order]) == Step(Run(inputs[..i], orders), inputs[i], order)
  {
    assert inputs[..i + 1] == inputs[..i] + [inputs[i]];
    RunSnoc(inputs[..i], orders, inputs[i], order);
  }

  /** The summary: "in sync" when neither counter is non-zero, the counts otherwise. */
  function Summarize(missingTables: nat, missingColumns: nat): (s: Summary)
    ensures s == InSync <==> missingTables == 0 && missingColumns == 0
    ensures s.Missing? ==> s.tables == missingTables && s.columns == missingColumns
  {
    if !(missingTables != 0 || missingColumns != 0) then InSync
    else Missing(missingTables, missingColumns)
  }

  // -------------------------------------------------------------- properties

  /**
   * A missing column yields its ADD line, and then an FK line exactly when
   * some foreign key of the table constrains it: the last such key.
   */
  lemma ColumnAddLinesFk(t: Table, c: Column)
    ensures var lines := ColumnAddLines(t, c);
      var i := LastMatch(t.foreignKeys, c.name);
      && 1 <= |lines| <= 2
      && lines[0] == AddColumnStatement(t.name, c) + ";"
      && (|lines| == 2 <==> exists j :: 0 <= j < |t.foreignKeys| && c.name in t.foreignKeys[j].constrained)
      && (|lines| == 2 ==> 0 <= i && lines[1] == FkStatement(t.name, t.foreignKeys[i]))
  {
    LastFkMatch(t.name, t.foreignKeys, c.name);
    var i := LastMatch(t.foreignKeys, c.name);
    if i == -1 {
      assert forall j :: 0 <= j < |t.foreignKeys| ==> c.name !in t.foreignKeys[j].constrained;
    }
  }

  /** The DROP COLUMN line names its column: different columns give different lines. */
  lemma DropColumnInjective(table: string, a: string, b: string)
    requires DropColumnStatement(table, a) == DropColumnStatement(table, b)
    ensures a == b
  {
    var head := "ALTER TABLE " + table + " DROP COLUMN ";
    assert DropColumnStatement(table, a) == head + (a + ";");
    assert DropColumnStatement(table, b) == head + (b + ";");
    PrefixOfConcat(head, a + ";");
    PrefixOfConcat(head, b + ";");
    assert a + ";" == b + ";";
    assert a == (a + ";")[..|a|];
  }

  /** The DROP COLUMN lines for the columns of `order`, in that order. */
  function DropLines(table: string, order: seq<string>): seq<string>
  {
    if order == [] then []
    else DropLines(table, order[..|order| - 1]) + [DropColumnStatement(table, order[|order| - 1])]
  }

  lemma {:induction false} DropLinesAt(table: string, order: seq<string>)
    ensures |DropLines(table, order)| == |order|
    ensures forall k :: 0 <= k < |order| ==> DropLines(table, order)[k] == DropColumnStatement(table, order[k])
  {
    if order != [] {
      DropLinesAt(table, order[..|order| - 1]);
    }
  }

  /** A DROP COLUMN line for `c` is among the lines of `order` exactly when `order` visits `c`. */
  lemma DropLinesNameColumns(table: string, order: seq<string>, c: string)
    ensures (exists k :: 0 <= k < |DropLines(table, order)| && DropLines(table, order)[k] == DropColumnStatement(table, c))
      <==> c in order
  {
    var lines := DropLines(table, order);
    DropLinesAt(table, order);
    if c in order {
      var k :| 0 <= k < |order| && order[k] == c;
      assert lines[k] == DropColumnStatement(table, c);
    }
    if exists k :: 0 <= k < |lines| && lines[k] == DropColumnStatement(table, c) {
      var k :| 0 <= k < |lines| && lines[k] == DropColumnStatement(table, c);
      DropColumnInjective(table, order[k], c);
    }
  }

  /** The DROP COLUMN lines of a table's column path: one per visited column, in visiting order. */
  lemma {:induction false} ColumnsStepUndo(out: Output, t: Table, cols: map<string, Column>, order: seq<string>)
    requires forall i :: 0 <= i < |order| ==> order[i] in cols
    requires forall k :: k in cols ==> cols[k].name == k
    ensures ColumnsStep(out, t, cols, order).undoColumns == out.undoColumns + DropLines(t.name, order)
  {
    if order != [] {
      var n := |order| - 1;
      ColumnsStepUndo(out, t, cols, order[..n]);
      assert cols[order[n]].name == order[n];
      assert out.undoColumns + DropLines(t.name, order)
        == (out.undoColumns + DropLines(t.name, order[..n])) + [DropColumnStatement(t.name, order[n])];
    }
  }

  /**
   * The sizes a table's column path produces: one undo line and one missing
   * column per visited column, at least one new-columns line each appended
   * after the old ones, and the table buffers untouched.
   */
  lemma {:induction false} ColumnsStepCounts(out: Output, t: Table, cols: map<string, Column>, order: seq<string>)
    requires forall i :: 0 <= i < |order| ==> order[i] in cols
    ensures var r := ColumnsStep(out, t, cols, order);
      && |r.undoColumns| == |out.undoColumns| + |order|
      && r.missingColumns == out.missingColumns + |order|
      && out.newColumns <= r.newColumns && |r.newColumns| >= |out.newColumns| + |order|
      && r.newTables == out.newTables && r.undoTables == out.undoTables && r.missingTables == out.missingTables
  {
    if order != [] {
      var n := |order| - 1;
      ColumnsStepCounts(out, t, cols, order[..n]);
    }
  }

  /** The lines of `blocks`, one block after another. */
  function Flatten(blocks: seq<seq<string>>): seq<string>
  {
    if blocks == [] then [] else Flatten(blocks[..|blocks| - 1]) + blocks[|blocks| - 1]
  }

  lemma {:induction false} FlattenMember(blocks: seq<seq<string>>, line: string)
    ensures line in Flatten(blocks) <==> exists i :: 0 <= i < |blocks| && line in blocks[i]
  {
    if blocks != [] {
      var n := |blocks| - 1;
      FlattenMember(blocks[..n], line);
      if exists i :: 0 <= i < |blocks| && line in blocks[i] {
        var i :| 0 <= i < |blocks| && line in blocks[i];
        if i < n {
          assert blocks[..n][i] == blocks[i];
        }
      }
    }
  }

  /** The new-columns lines of each column of `order`, as one block per column. */
  function AddBlocks(t: Table, cols: map<string, Column>, order: seq<string>): (blocks: seq<seq<string>>)
    requires forall i :: 0 <= i < |order| ==> order[i] in cols
    ensures |blocks| == |order|
    ensures forall i :: 0 <= i < |order| ==> blocks[i] == ColumnAddLines(t, cols[order[i]])
  {
    if order == [] then []
    else AddBlocks(t, cols, order[..|order| - 1]) + [ColumnAddLines(t, cols[order[|order| - 1]])]
  }

  /** The new-columns lines of the columns of `order`, in that order. */
  function AddLines(t: Table, cols: map<string, Column>, order: seq<string>): seq<string>
    requires forall i :: 0 <= i < |order| ==> order[i] in cols
  {
    Flatten(AddBlocks(t, cols, order))
  }

  lemma AddLinesSnoc(t: Table, cols: map<string, Column>, order: seq<string>)
    requires order != [] && forall i :: 0 <= i < |order| ==> order[i] in cols
    ensures AddLines(t, cols, order)
      == AddLines(t, cols, order[..|order| - 1]) + ColumnAddLines(t, cols[order[|order| - 1]])
  {
    var n := |order| - 1;
    var blocks := AddBlocks(t, cols, order);
    assert blocks == AddBlocks(t, cols, order[..n]) + [ColumnAddLines(t, cols[order[n]])];
    assert blocks[..n] == AddBlocks(t, cols, order[..n]);
  }

  /** The new-columns lines of a table's column path: the lines of each visited column, in visiting order. */
  lemma {:induction false} ColumnsStepNew(out: Output, t: Table, cols: map<string, Column>, order: seq<string>)
    requires forall i :: 0 <= i < |order| ==> order[i] in cols
    ensures ColumnsStep(out, t, cols, order).newColumns == out.newColumns + AddLines(t, cols, order)
  {
    if order != [] {
      var n := |order| - 1;
      var prev := ColumnsStep(out, t, cols, order[..n]);
      var block := ColumnAddLines(t, cols[order[n]]);
      ColumnsStepNew(out, t, cols, order[..n]);
      assert ColumnsStep(out, t, cols, order).newColumns == prev.newColumns + block;
      AddLinesSnoc(t, cols, order);
      SeqAssoc(out.newColumns, AddLines(t, cols, order[..n]), block);
    }
  }

  lemma SeqAssoc(a: seq<string>, b: seq<string>, c: seq<string>)
    ensures (a + b) + c == a + (b + c)
  {
  }

  /** The number of ADD COLUMN lines of `table` among `lines`. */
  function CountAddColumn(table: string, lines: seq<string>): nat
  {
    if lines == [] then 0
    else
      CountAddColumn(table, lines[..|lines| - 1])
        + if StartsWith(lines[|lines| - 1], AddColumnPrefix(table)) then 1 else 0
  }

  lemma {:induction false} CountAddColumnAppend(table: string, a: seq<string>, b: seq<string>)
    ensures CountAddColumn(table, a + b) == CountAddColumn(table, a) + CountAddColumn(table, b)
  {
    if b == [] {
      assert a + b == a;
    } else {
      var n := |b| - 1;
      CountAddColumnAppend(table, a, b[..n]);
      assert (a + b)[..|a + b| - 1] == a + b[..n];
    }
  }

  /** Of a column's new-columns lines, exactly the first is an ADD COLUMN line. */
  lemma ColumnAddLinesKinds(t: Table, c: Column)
    ensures StartsWith(ColumnAddLines(t, c)[0], AddColumnPrefix(t.name))
    ensures forall k :: 1 <= k < |ColumnAddLines(t, c)| ==> !StartsWith(ColumnAddLines(t, c)[k], AddColumnPrefix(t.name))
  {
    AddColumnLinePrefix(t.name, c);
    LastFkMatch(t.name, t.foreignKeys, c.name);
    var i := LastMatch(t.foreignKeys, c.name);
    if i >= 0 {
      FkNotAddColumn(t.name, t.foreignKeys[i]);
    }
  }

  lemma ColumnAddLinesOneAdd(t: Table, c: Column)
    ensures CountAddColumn(t.name, ColumnAddLines(t, c)) == 1
  {
    var lines := ColumnAddLines(t, c);
    var p := AddColumnPrefix(t.name);
    ColumnAddLinesKinds(t, c);
    assert lines[..1] == [lines[0]];
    assert CountAddColumn(t.name, [lines[0]]) == CountAddColumn(t.name, []) + 1 by {
      assert [lines[0]][..0] == [];
    }
    if |lines| == 2 {
      assert !StartsWith(lines[1], p);
      assert lines[..|lines| - 1] == lines[..1];
    }
  }

  /** Each visited column contributes exactly one ADD COLUMN line. */
  lemma {:induction false} AddLinesCount(t: Table, cols: map<string, Column>, order: seq<string>)
    requires forall i :: 0 <= i < |order| ==> order[i] in cols
    ensures CountAddColumn(t.name, AddLines(t, cols, order)) == |order|
  {
    if order != [] {
      var n := |order| - 1;
      AddLinesCount(t, cols, order[..n]);
      AddLinesSnoc(t, cols, order);
      CountAddColumnAppend(t.name, AddLines(t, cols, order[..n]), ColumnAddLines(t, cols[order[n]]));
      ColumnAddLinesOneAdd(t, cols[order[n]]);
    }
  }

  /** A line is among a column path's lines exactly when it is among some visited column's lines. */
  lemma AddLinesMember(t: Table, cols: map<string, Column>, order: seq<string>, line: string)
    requires forall i :: 0 <= i < |order| ==> order[i] in cols
    ensures line in AddLines(t, cols, order) <==> exists i :: 0 <= i < |order| && line in ColumnAddLines(t, cols[order[i]])
  {
    FlattenMember(AddBlocks(t, cols, order), line);
  }

  /** Among one column's lines, the only ADD COLUMN line is the column's own ADD line. */
  lemma ColumnAddLinesAddColumn(t: Table, c: Column, line: string)
    ensures (line in ColumnAddLines(t, c) && StartsWith(line, AddColumnPrefix(t.name))) <==> line == AddColumnLine(t.name, c)
  {
    ColumnAddLinesKinds(t, c);
    var block := ColumnAddLines(t, c);
    if line in block && StartsWith(line, AddColumnPrefix(t.name)) {
      var k :| 0 <= k < |block| && block[k] == line;
    }
  }

  /** The ADD COLUMN lines among a column path's lines are the ADD lines of the visited columns. */
  lemma AddLinesAddColumn(t: Table, cols: map<string, Column>, order: seq<string>, line: string)
    requires forall i :: 0 <= i < |order| ==> order[i] in cols
    ensures (line in AddLines(t, cols, order) && StartsWith(line, AddColumnPrefix(t.name)))
      <==> exists i :: 0 <= i < |order| && line == AddColumnLine(t.name, cols[order[i]])
  {
    AddLinesMember(t, cols, order, line);
    if line in AddLines(t, cols, order) && StartsWith(line, AddColumnPrefix(t.name)) {
      var i :| 0 <= i < |order| && line in ColumnAddLines(t, cols[order[i]]);
      ColumnAddLinesAddColumn(t, cols[order[i]], line);
    }
    if exists i :: 0 <= i < |order| && line == AddColumnLine(t.name, cols[order[i]]) {
      var i :| 0 <= i < |order| && line == AddColumnLine(t.name, cols[order[i]]);
      ColumnAddLinesAddColumn(t, cols[order[i]], line);
    }
  }

  /** What one table does to the table buffers and the missing-table count. */
  lemma StepTables(out: Output, input: TableInput, order: seq<string>)
    requires ValidOrder(input, order)
    ensures var r := Step(out, input, order);
      && r.newTables == out.newTables + (if input.oldColumns.None? then [CreateTableLine(input.dump)] else [])
      && r.undoTables == out.undoTables + (if input.oldColumns.None? then [DropTableStatement(input.table.name)] else [])
      && r.missingTables == out.missingTables + (if input.oldColumns.None? then 1 else 0)
    ensures var r := Step(out, input, order);
      input.oldColumns.None? ==>
        r.newColumns == out.newColumns && r.undoColumns == out.undoColumns && r.missingColumns == out.missingColumns
  {
    if input.oldColumns.Some? {
      ColumnsStepCounts(out, input.table, ColumnsByName(input.table.columns), order);
    }
  }

  /**
   * The column path of a table found on the old side: one DROP COLUMN line
   * per column that the new side has and the old side lacks, none for any
   * other column (in particular none for columns only the old side has),
   * and the missing-column count grows by the size of that difference.
   */
  lemma StepColumns(out: Output, input: TableInput, order: seq<string>)
    requires input.oldColumns.Some? && ValidOrder(input, order)
    ensures out.undoColumns <= Step(out, input, order).undoColumns
    ensures var r := Step(out, input, order);
      var added := r.undoColumns[|out.undoColumns|..];
      var missing := Names(input.table.columns) - Names(input.oldColumns.value);
      && |added| == |missing|
      && (forall c :: (exists k :: 0 <= k < |added| && added[k] == DropColumnStatement(input.table.name, c)) <==> c in missing)
      && r.missingColumns == out.missingColumns + |missing|
  {
    var cols := ColumnsByName(input.table.columns);
    var missing := Diff(input);
    var r := Step(out, input, order);
    assert r == ColumnsStep(out, input.table, cols, order);
    OrderLength(order, missing);
    ColumnsStepUndo(out, input.table, cols, order);
    ColumnsStepCounts(out, input.table, cols, order);
    var added := r.undoColumns[|out.undoColumns|..];
    assert added == DropLines(input.table.name, order);
    forall c
      ensures (exists k :: 0 <= k < |added| && added[k] == DropColumnStatement(input.table.name, c)) <==> c in missing
    {
      DropLinesNameColumns(input.table.name, order, c);
    }
  }

  /** The ADD COLUMN lines of a column path that visits the set `s` are the ADD lines of the columns in `s`. */
  lemma AddLinesAddColumnSet(t: Table, cols: map<string, Column>, order: seq<string>, s: set<string>, line: string)
    requires IsOrderOf(order, s) && s <= cols.Keys
    ensures forall i :: 0 <= i < |order| ==> order[i] in cols
    ensures (line in AddLines(t, cols, order) && StartsWith(line, AddColumnPrefix(t.name)))
      <==> exists c :: c in s && line == AddColumnLine(t.name, cols[c])
  {
    assert forall i :: 0 <= i < |order| ==> order[i] in s;
    AddLinesAddColumn(t, cols, order, line);
    if exists i :: 0 <= i < |order| && line == AddColumnLine(t.name, cols[order[i]]) {
      var i :| 0 <= i < |order| && line == AddColumnLine(t.name, cols[order[i]]);
      assert order[i] in s;
    }
    if exists c :: c in s && line == AddColumnLine(t.name, cols[c]) {
      var c :| c in s && line == AddColumnLine(t.name, cols[c]);
      assert c in (set x | x in order);
      var i :| 0 <= i < |order| && order[i] == c;
    }
  }

  /** The new-columns lines of a table found on the old side: the lines of each missing column, in visiting order. */
  lemma StepNewColumns(out: Output, input: TableInput, order: seq<string>)
    requires input.oldColumns.Some? && ValidOrder(input, order)
    ensures Step(out, input, order).newColumns
      == out.newColumns + AddLines(input.table, ColumnsByName(input.table.columns), order)
  {
    var cols := ColumnsByName(input.table.columns);
    assert Step(out, input, order) == ColumnsStep(out, input.table, cols, order);
    ColumnsStepNew(out, input.table, cols, order);
  }

  /** A table found on the old side gets exactly one ADD COLUMN line per missing column. */
  lemma StepAddColumnCount(out: Output, input: TableInput, order: seq<string>)
    requires input.oldColumns.Some? && ValidOrder(input, order)
    ensures |out.newColumns| <= |Step(out, input, order).newColumns|
    ensures CountAddColumn(input.table.name, Step(out, input, order).newColumns[|out.newColumns|..])
      == |Names(input.table.columns) - Names(input.oldColumns.value)|
  {
    var cols := ColumnsByName(input.table.columns);
    var missing := Diff(input);
    StepNewColumns(out, input, order);
    OrderLength(order, missing);
    AddLinesCount(input.table, cols, order);
    var r := Step(out, input, order);
    assert r.newColumns[|out.newColumns|..] == AddLines(input.table, cols, order);
    assert missing == Names(input.table.columns) - Names(input.oldColumns.value);
  }

  /**
   * An added new-columns line is an ADD COLUMN line exactly when it is the
   * ADD line of a column the new side has and the old side lacks.
   */
  lemma StepAddColumnLines(out: Output, input: TableInput, order: seq<string>, line: string)
    requires input.oldColumns.Some? && ValidOrder(input, order)
    ensures |out.newColumns| <= |Step(out, input, order).newColumns|
    ensures var added := Step(out, input, order).newColumns[|out.newColumns|..];
      var missing := Names(input.table.columns) - Names(input.oldColumns.value);
      (line in added && StartsWith(line, AddColumnPrefix(input.table.name)))
        <==> exists c :: c in missing && line == AddColumnLine(input.table.name, ColumnsByName(input.table.columns)[c])
  {
    var cols := ColumnsByName(input.table.columns);
    var missing := Diff(input);
    StepNewColumns(out, input, order);
    var r := Step(out, input, order);
    assert r.newColumns[|out.newColumns|..] == AddLines(input.table, cols, order);
    assert missing == Names(input.table.columns) - Names(input.oldColumns.value);
    AddLinesAddColumnSet(input.table, cols, order, missing, line);
  }

  /** A table found on the old side with no missing column changes nothing. */
  lemma StepInSync(out: Output, input: TableInput, order: seq<string>)
    requires ValidOrder(input, order)
    requires input.oldColumns.Some? && Names(input.table.columns) <= Names(input.oldColumns.value)
    ensures Step(out, input, order) == out
  {
    DiffEmpty(Names(input.table.columns), Names(input.oldColumns.value));
    OrderLength(order, Diff(input));
  }

  /** What one table does to the two counters. */
  lemma StepCounters(out: Output, input: TableInput, order: seq<string>)
    requires ValidOrder(input, order)
    ensures Step(out, input, order).missingTables == out.missingTables + (if input.oldColumns.None? then 1 else 0)
    ensures Step(out, input, order).missingColumns == out.missingColumns + (if input.oldColumns.None? then 0 else |Diff(input)|)
    ensures |Step(out, input, order).undoColumns| - |out.undoColumns|
      == Step(out, input, order).missingColumns - out.missingColumns
  {
    if input.oldColumns.Some? {
      var cols := ColumnsByName(input.table.columns);
      assert Step(out, input, order) == ColumnsStep(out, input.table, cols, order);
      OrderLength(order, Diff(input));
      ColumnsStepCounts(out, input.table, cols, order);
    }
  }

  /** The tables whose old lookup failed, in table order. */
  function MissingTableInputs(inputs: seq<TableInput>): seq<TableInput>
  {
    if inputs == [] then []
    else
      var n := |inputs| - 1;
      MissingTableInputs(inputs[..n]) + (if inputs[n].oldColumns.None? then [inputs[n]] else [])
  }

  /** The CREATE TABLE lines of the given tables, in order. */
  function CreateTableLines(missing: seq<TableInput>): seq<string>
  {
    if missing == [] then []
    else CreateTableLines(missing[..|missing| - 1]) + [CreateTableLine(missing[|missing| - 1].dump)]
  }

  /** The DROP TABLE lines of the given tables, in order. */
  function DropTableLines(missing: seq<TableInput>): seq<string>
  {
    if missing == [] then []
    else DropTableLines(missing[..|missing| - 1]) + [DropTableStatement(missing[|missing| - 1].table.name)]
  }

  /** The number of missing columns, over the tables found on the old side. */
  function MissingColumnCount(inputs: seq<TableInput>): nat
  {
    if inputs == [] then 0
    else
      var n := |inputs| - 1;
      MissingColumnCount(inputs[..n]) + if inputs[n].oldColumns.None? then 0 else |Diff(inputs[n])|
  }

  /** A table is in sync when the old side has it with every one of its columns. */
  predicate InSyncTable(input: TableInput)
  {
    input.oldColumns.Some? && Names(input.table.columns) <= Names(input.oldColumns.value)
  }

  predicate AllInSync(inputs: seq<TableInput>)
  {
    forall i :: 0 <= i < |inputs| ==> InSyncTable(inputs[i])
  }

  lemma AllInSyncSnoc(inputs: seq<TableInput>)
    requires inputs != []
    ensures AllInSync(inputs) <==> AllInSync(inputs[..|inputs| - 1]) && InSyncTable(inputs[|inputs| - 1])
  {
    var n := |inputs| - 1;
    assert forall i :: 0 <= i < n ==> inputs[..n][i] == inputs[i];
  }

  /**
   * The table buffers of a run: one CREATE TABLE line and one DROP TABLE
   * line per table whose old lookup failed, in table order.
   */
  lemma {:induction false} RunTables(inputs: seq<TableInput>, orders: seq<seq<string>>)
    requires ValidOrders(inputs, orders)
    ensures Run(inputs, orders).newTables == CreateTableLines(MissingTableInputs(inputs))
    ensures Run(inputs, orders).undoTables == DropTableLines(MissingTableInputs(inputs))
  {
    if inputs != [] {
      var n := |inputs| - 1;
      var prev := Run(inputs[..n], orders[..n]);
      RunTables(inputs[..n], orders[..n]);
      assert Run(inputs, orders) == Step(prev, inputs[n], orders[n]);
      StepTables(prev, inputs[n], orders[n]);
      var m := MissingTableInputs(inputs[..n]);
      if inputs[n].oldColumns.None? {
        assert MissingTableInputs(inputs) == m + [inputs[n]];
        assert (m + [inputs[n]])[..|m|] == m;
      } else {
        assert MissingTableInputs(inputs) == m;
      }
    }
  }

  /**
   * The counters of a run: one missing table per table whose old lookup
   * failed, and the total size of the column differences as missing columns.
   */
  lemma {:induction false} RunCounters(inputs: seq<TableInput>, orders: seq<seq<string>>)
    requires ValidOrders(inputs, orders)
    ensures Run(inputs, orders).missingTables == |MissingTableInputs(inputs)|
    ensures Run(inputs, orders).missingColumns == MissingColumnCount(inputs)
  {
    if inputs != [] {
      var n := |inputs| - 1;
      var prev := Run(inputs[..n], orders[..n]);
      RunCounters(inputs[..n], orders[..n]);
      assert Run(inputs, orders) == Step(prev, inputs[n], orders[n]);
      StepCounters(prev, inputs[n], orders[n]);
      if inputs[n].oldColumns.None? {
        assert MissingTableInputs(inputs) == MissingTableInputs(inputs[..n]) + [inputs[n]];
      } else {
        assert MissingTableInputs(inputs) == MissingTableInputs(inputs[..n]);
      }
    }
  }

  /** Both counts are zero exactly when every table is in sync. */
  lemma {:induction false} NothingMissing(inputs: seq<TableInput>)
    ensures |MissingTableInputs(inputs)| == 0 && MissingColumnCount(inputs) == 0 <==> AllInSync(inputs)
  {
    if inputs != [] {
      var n := |inputs| - 1;
      NothingMissing(inputs[..n]);
      AllInSyncSnoc(inputs);
      if inputs[n].oldColumns.Some? {
        DiffEmpty(Names(inputs[n].table.columns), Names(inputs[n].oldColumns.value));
      }
    }
  }

  /** When every table is in sync, the run writes nothing and counts nothing. */
  lemma {:induction false} RunInSyncEmpty(inputs: seq<TableInput>, orders: seq<seq<string>>)
    requires ValidOrders(inputs, orders) && AllInSync(inputs)
    ensures Run(inputs, orders) == Empty
  {
    if inputs != [] {
      var n := |inputs| - 1;
      AllInSyncSnoc(inputs);
      RunInSyncEmpty(inputs[..n], orders[..n]);
      StepInSync(Empty, inputs[n], orders[n]);
    }
  }

  /** The run reports "in sync" exactly when every table is in sync. */
  lemma RunInSync(inputs: seq<TableInput>, orders: seq<seq<string>>)
    requires ValidOrders(inputs, orders)
    ensures Summarize(Run(inputs, orders).missingTables, Run(inputs, orders).missingColumns) == InSync <==> AllInSync(inputs)
  {
    RunCounters(inputs, orders);
    NothingMissing(inputs);
  }

  /** One undo line per missing column over the whole run. */
  lemma {:induction false} RunUndoColumns(inputs: seq<TableInput>, orders: seq<seq<string>>)
    requires ValidOrders(inputs, orders)
    ensures |Run(inputs, orders).undoColumns| == Run(inputs, orders).missingColumns
  {
    if inputs != [] {
      var n := |inputs| - 1;
      var prev := Run(inputs[..n], orders[..n]);
      RunUndoColumns(inputs[..n], orders[..n]);
      assert Run(inputs, orders) == Step(prev, inputs[n], orders[n]);
      StepCounters(prev, inputs[n], orders[n]);
    }
  }

  // ------------------------------------------------------------- the run

  /** The state of one sync run: the four output files as line buffers, and the counters. */
  class SyncRun {
    var newColumns: seq<string>
    var undoColumns: seq<string>
    var newTables: seq<string>
    var undoTables: seq<string>
    var missingTables: nat
    var missingColumns: nat

    function State(): Output
      reads this
    {
      Output(newColumns, undoColumns, newTables, undoTables, missingTables, missingColumns)
    }

    constructor ()
      ensures State() == Empty
    {
      newColumns, undoColumns, newTables, undoTables := [], [], [], [];
      missingTables, missingColumns := 0, 0;
    }

    /**
     * The body of the table loop. The missing columns are visited in an
     * arbitrary order, returned as `order`.
     */
    method ProcessTable(input: TableInput) returns (ghost order: seq<string>)
      modifies this
      ensures ValidOrder(input, order)
      ensures State() == Step(old(State()), input, order)
    {
      var newCols := ColumnsByName(input.table.columns);
      match input.oldColumns
      case Some(oldColumns) =>
        var oldCols := ColumnsByName(oldColumns);
        var columnDiffs := newCols.Keys - oldCols.Keys;
        order := AddColumns(input.table, newCols, columnDiffs);
      case None =>
        AddTable(input.table, input.dump);
        order := [];
    }

    /** The column path: one ADD line (and FK line) and one DROP line per missing column. */
    method AddColumns(table: Table, newCols: map<string, Column>, columnDiffs: set<string>)
      returns (ghost order: seq<string>)
      requires columnDiffs <= newCols.Keys
      modifies this
      ensures IsOrderOf(order, columnDiffs) && forall i :: 0 <= i < |order| ==> order[i] in newCols
      ensures State() == ColumnsStep(old(State()), table, newCols, order)
    {
      var remaining := columnDiffs;
      ghost var done: set<string> := {};
      order := [];
      while remaining != {}
        invariant done + remaining == columnDiffs && done !! remaining
        invariant forall i :: 0 <= i < |order| ==> order[i] in newCols
        invariant IsOrderOf(order, done)
        invariant State() == ColumnsStep(old(State()), table, newCols, order)
        decreases remaining
      {
        var column :| column in remaining;
        ColumnsStepSnoc(old(State()), table, newCols, order, column);
        OrderSnoc(order, column, done);
        AddColumn(table, newCols[column]);
        order := order + [column];
        done := done + {column};
        remaining := remaining - {column};
      }
    }

    /** One missing column: its ADD line, its FK line if any, its DROP line, and the count. */
    method AddColumn(table: Table, newColumn: Column)
      modifies this
      ensures State() == ColumnStep(old(State()), table, newColumn)
    {
      var addColumnStatement := AddColumnStatement(table.name, newColumn);
      var fkStatement := FindFkStatement(table.name, table.foreignKeys, newColumn.name);
      var undoColumnStatement := DropColumnStatement(table.name, newColumn.name);
      newColumns := newColumns + [addColumnStatement + ";"];
      if fkStatement != "" {
        newColumns := newColumns + [fkStatement];
      }
      undoColumns := undoColumns + [undoColumnStatement];
      missingColumns := missingColumns + 1;
    }

    /** The table path: the cleaned CREATE TABLE line and its DROP TABLE undo line. */
    method AddTable(table: Table, dump: string)
      modifies this
      ensures State() == TableStep(old(State()), table, dump)
    {
      var create := ExtractCreate(dump);
      var line := ReplaceChars(create, StrippedChars, "");
      newTables := newTables + [line];
      undoTables := undoTables + [DropTableStatement(table.name)];
      missingTables := missingTables + 1;
    }
  }

  /**
   * sync_db without its I/O: processes the new side's tables in order and
   * chooses the summary from the final counters.
   */
  method SyncDb(inputs: seq<TableInput>) returns (run: SyncRun, summary: Summary, ghost orders: seq<seq<string>>)
    ensures ValidOrders(inputs, orders)
    ensures run.State() == Run(inputs, orders)
    ensures summary == Summarize(run.missingTables, run.missingColumns)
  {
    run := new SyncRun();
    orders := [];
    for i := 0 to |inputs|
      invariant ValidOrders(inputs[..i], orders)
      invariant run.State() == Run(inputs[..i], orders)
    {
      ghost var order := run.ProcessTable(inputs[i]);
      RunPrefixStep(inputs, orders, i, order);
      orders := orders + [order];
    }
    assert inputs[..|inputs|] == inputs;
    summary := Summarize(run.missingTables, run.missingColumns);
  }
}
