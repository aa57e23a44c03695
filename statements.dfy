/**
 * The SQL text sync_schema.py emits: the ADD COLUMN / DROP COLUMN / ADD
 * CONSTRAINT templates filled from reflected column and foreign-key records,
 * the last-match foreign-key search, and the CREATE TABLE statement cut out
 * of the dump tool's output.
 */
module Statements {
  import opened Wrappers
  import opened Text

  /** One reflected column: name, type text, nullable flag, default, comment. */
  datatype Column = Column(
    name: string,
    typ: string,
    nullable: bool,
    default: Option<string>,
    comment: Option<string>)

  /**
   * One reflected foreign key; `options` holds the "ondelete" and
   * "onupdate" actions when the database reports them.
   */
  datatype ForeignKey = ForeignKey(
    name: string,
    constrained: seq<string>,
    referredTable: string,
    referred: seq<string>,
    options: map<string, string>)

  // ---------------------------------------------------------------- columns

  /** The nullability slot: a true flag renders NOT NULL, a false one NULL. */
  function NullClause(c: Column): string
  {
    if c.nullable then "NOT NULL" else "NULL"
  }

  /** A default is rendered only when it is present and non-empty. */
  predicate HasDefault(c: Column)
  {
    c.default.Some? && c.default.value != ""
  }

  function DefaultClause(c: Column): string
  {
    if HasDefault(c) then "DEFAULT " + (c.default.value + " ") else ""
  }

  /** Python formats a missing comment as the text None. */
  function CommentText(c: Column): string
  {
    match c.comment
    case None => "None"
    case Some(text) => text
  }

  /** Everything of an ADD COLUMN statement before the nullability slot. */
  function AddColumnHead(table: string, c: Column): string
  {
    "ALTER TABLE " + table + " ADD COLUMN " + c.name + " " + c.typ + " "
  }

  /** The ADD COLUMN template, filled in. */
  function AddColumnStatement(table: string, c: Column): string
  {
    AddColumnHead(table, c) + AddColumnRest(c)
  }

  /** The line written to the new-columns file: the statement and a `;`. */
  function AddColumnLine(table: string, c: Column): string
  {
    AddColumnStatement(table, c) + ";"
  }

  /** The undo template; it carries its own `;`. */
  function DropColumnStatement(table: string, col: string): string
  {
    "ALTER TABLE " + table + " DROP COLUMN " + col + ";"
  }

  /** The comment clause that closes every ADD COLUMN statement. */
  function CommentClause(c: Column): string
  {
    " COMMENT '" + CommentText(c) + "'"
  }

  /** What follows the nullability keyword of an ADD COLUMN statement. */
  function AfterNullability(c: Column): string
  {
    DefaultClause(c) + CommentClause(c)
  }

  /** What follows the head of an ADD COLUMN statement. */
  function AddColumnRest(c: Column): string
  {
    NullClause(c) + (" " + AfterNullability(c))
  }

  /** The slot of an ADD COLUMN statement after its head. */
  lemma AddColumnSplit(table: string, c: Column)
    ensures StartsWith(AddColumnStatement(table, c), AddColumnHead(table, c))
    ensures AddColumnStatement(table, c)[|AddColumnHead(table, c)|..] == AddColumnRest(c)
  {
    PrefixOfConcat(AddColumnHead(table, c), AddColumnRest(c));
  }

  /** The slot after the nullability keyword and its space. */
  lemma AddColumnRestSplit(c: Column)
    ensures AddColumnRest(c)[|NullClause(c)| + 1..] == AfterNullability(c)
  {
    assert AddColumnRest(c) == (NullClause(c) + " ") + AfterNullability(c);
    PrefixOfConcat(NullClause(c) + " ", AfterNullability(c));
  }

  /** The nullability slot reads NOT NULL exactly for a nullable column, NULL otherwise. */
  lemma AddColumnNullability(table: string, c: Column)
    ensures var rest := AddColumnStatement(table, c)[|AddColumnHead(table, c)|..];
      && (StartsWith(rest, "NOT NULL ") <==> c.nullable)
      && (!c.nullable ==> StartsWith(rest, "NULL "))
  {
    AddColumnSplit(table, c);
    var rest := AddColumnRest(c);
    assert rest == (NullClause(c) + " ") + AfterNullability(c);
    PrefixOfConcat(NullClause(c) + " ", AfterNullability(c));
    if !c.nullable {
      assert rest[1] == 'U';
    }
  }

  /**
   * Right after the nullability keyword and its space, the DEFAULT clause
   * appears exactly for a non-empty default.
   */
  lemma AddColumnDefault(table: string, c: Column)
    ensures var after := AddColumnStatement(table, c)[|AddColumnHead(table, c)| + |NullClause(c)| + 1..];
      && (StartsWith(after, "DEFAULT ") <==> HasDefault(c))
      && (HasDefault(c) ==> StartsWith(after, "DEFAULT " + c.default.value + " "))
  {
    AddColumnSplit(table, c);
    AddColumnRestSplit(c);
    var s := AddColumnStatement(table, c);
    var h := |AddColumnHead(table, c)|;
    assert s[h + |NullClause(c)| + 1..] == s[h..][|NullClause(c)| + 1..];
    var after := AfterNullability(c);
    if HasDefault(c) {
      var d := "DEFAULT " + (c.default.value + " ");
      PrefixOfConcat(d, CommentClause(c));
      PrefixOfConcat("DEFAULT ", c.default.value + " ");
      PrefixTrans(after, d, "DEFAULT ");
      assert "DEFAULT " + c.default.value + " " == d;
    } else {
      assert after == CommentClause(c);
      assert after[0] == ' ';
    }
  }

  /** Every ADD COLUMN statement ends with the column's comment clause. */
  lemma AddColumnComment(table: string, c: Column)
    ensures EndsWith(AddColumnStatement(table, c), " COMMENT '" + CommentText(c) + "'")
  {
    var s := AddColumnStatement(table, c);
    assert s == (AddColumnHead(table, c) + NullClause(c) + " " + DefaultClause(c)) + CommentClause(c);
    SuffixOfConcat(AddColumnHead(table, c) + NullClause(c) + " " + DefaultClause(c), CommentClause(c));
  }

  // ----------------------------------------------------------- foreign keys

  /**
   * The line continuation inside the ADD CONSTRAINT template leaves one
   * space and the next line's twenty spaces of indentation before REFERENCES.
   */
  const ReferencesGap: string := "                     "

  function OnDeleteClause(fk: ForeignKey): string
  {
    if "ondelete" in fk.options then "ON DELETE " + fk.options["ondelete"] else ""
  }

  /** The opening of an ADD CONSTRAINT statement, up to its column list. */
  function FkStart(table: string, fk: ForeignKey): string
  {
    "ALTER TABLE " + table + " ADD CONSTRAINT " + fk.name + " FOREIGN KEY ("
  }

  /** Everything of an ADD CONSTRAINT statement before the ON DELETE slot. */
  function FkHead(table: string, fk: ForeignKey): string
  {
    FkStart(table, fk)
      + (Join(",", fk.constrained) + ")" + ReferencesGap
         + "REFERENCES " + fk.referredTable + "(" + Join(",", fk.referred) + ") ")
  }

  /**
   * The closing of an ADD CONSTRAINT statement after the ON DELETE slot: a
   * space, the ON UPDATE clause when the option is present, and the `;`.
   */
  function FkEnd(fk: ForeignKey): string
  {
    if "onupdate" in fk.options then " ON UPDATE " + fk.options["onupdate"] + ";" else " ;"
  }

  /** What follows the head of an ADD CONSTRAINT statement. */
  function FkRest(fk: ForeignKey): string
  {
    OnDeleteClause(fk) + FkEnd(fk)
  }

  /** The ADD CONSTRAINT template, filled in; it carries its own `;`. */
  function FkStatement(table: string, fk: ForeignKey): string
  {
    FkHead(table, fk) + FkRest(fk)
  }

  /** An ADD CONSTRAINT statement names the table, the constraint and its columns up front. */
  lemma FkStatementStart(table: string, fk: ForeignKey)
    ensures StartsWith(FkStatement(table, fk), "ALTER TABLE " + table + " ADD CONSTRAINT " + fk.name + " FOREIGN KEY (")
    ensures FkStatement(table, fk)[|FkHead(table, fk)|..] == FkRest(fk)
  {
    PrefixOfConcat(FkHead(table, fk), FkRest(fk));
    var h := FkHead(table, fk);
    PrefixOfConcat(FkStart(table, fk), h[|FkStart(table, fk)|..]);
    PrefixTrans(FkStatement(table, fk), h, FkStart(table, fk));
  }

  /** The ON DELETE clause appears, right after the referenced columns, exactly when the option is present. */
  lemma FkOnDelete(table: string, fk: ForeignKey)
    ensures var rest := FkStatement(table, fk)[|FkHead(table, fk)|..];
      && (StartsWith(rest, "ON DELETE ") <==> "ondelete" in fk.options)
      && ("ondelete" in fk.options ==> StartsWith(rest, "ON DELETE " + fk.options["ondelete"]))
  {
    FkStatementStart(table, fk);
    var rest := FkRest(fk);
    if "ondelete" in fk.options {
      var d := "ON DELETE " + fk.options["ondelete"];
      PrefixOfConcat(d, FkEnd(fk));
      PrefixOfConcat("ON DELETE ", fk.options["ondelete"]);
      PrefixTrans(rest, d, "ON DELETE ");
    } else {
      assert rest == FkEnd(fk);
      assert rest[0] == ' ';
    }
  }

  lemma FkStatementEnd(table: string, fk: ForeignKey)
    ensures EndsWith(FkStatement(table, fk), FkEnd(fk))
  {
    SuffixOfConcat(FkHead(table, fk), FkRest(fk));
    SuffixOfConcat(OnDeleteClause(fk), FkEnd(fk));
    SuffixTrans(FkStatement(table, fk), FkRest(fk), FkEnd(fk));
  }

  /** The statement ends with the ON UPDATE clause when the option is present, and with " ;" otherwise. */
  lemma FkOnUpdate(table: string, fk: ForeignKey)
    ensures "onupdate" in fk.options ==> EndsWith(FkStatement(table, fk), " ON UPDATE " + fk.options["onupdate"] + ";")
    ensures "onupdate" !in fk.options ==> EndsWith(FkStatement(table, fk), " ;")
  {
    FkStatementEnd(table, fk);
  }

  /**
   * Reference for the foreign-key search: the statement for the LAST key in
   * list order whose constrained columns include `col`, or "" when none does.
   */
  function LastFkStatement(table: string, fks: seq<ForeignKey>, col: string): string
  {
    if fks == [] then ""
    else if col in fks[|fks| - 1].constrained then FkStatement(table, fks[|fks| - 1])
    else LastFkStatement(table, fks[..|fks| - 1], col)
  }

  /** The index of the last key in `fks` that constrains `col`, or -1 when none does. */
  function LastMatch(fks: seq<ForeignKey>, col: string): (i: int)
    ensures -1 <= i < |fks|
    ensures i >= 0 ==> col in fks[i].constrained
    ensures forall j :: i < j < |fks| ==> col !in fks[j].constrained
  {
    if fks == [] then -1
    else if col in fks[|fks| - 1].constrained then |fks| - 1
    else LastMatch(fks[..|fks| - 1], col)
  }

  /** The opening every ADD COLUMN line of a table shares. */
  function AddColumnPrefix(table: string): string
  {
    "ALTER TABLE " + table + " ADD COLUMN "
  }

  lemma AddColumnLinePrefix(table: string, c: Column)
    ensures StartsWith(AddColumnLine(table, c), AddColumnPrefix(table))
  {
    var head := AddColumnHead(table, c);
    assert head == AddColumnPrefix(table) + (c.name + " " + c.typ + " ");
    PrefixOfConcat(AddColumnPrefix(table), c.name + " " + c.typ + " ");
    AddColumnSplit(table, c);
    PrefixOfConcat(AddColumnStatement(table, c), ";");
    PrefixTrans(AddColumnLine(table, c), AddColumnStatement(table, c), head);
    PrefixTrans(AddColumnLine(table, c), head, AddColumnPrefix(table));
  }

  /** An ADD CONSTRAINT statement is never mistaken for an ADD COLUMN line of the same table. */
  lemma FkNotAddColumn(table: string, fk: ForeignKey)
    ensures !StartsWith(FkStatement(table, fk), AddColumnPrefix(table))
  {
    FkStatementStart(table, fk);
    var start := "ALTER TABLE " + table + " ADD CONSTRAINT " + fk.name + " FOREIGN KEY (";
    var k := |"ALTER TABLE "| + |table| + 7;
    assert start[k] == 'N';
    assert FkStatement(table, fk)[k] == start[k];
    assert AddColumnPrefix(table)[k] == 'L';
  }

  lemma FkStatementNonEmpty(table: string, fk: ForeignKey)
    ensures FkStatement(table, fk) != ""
  {
    assert FkStatement(table, fk)[0] == 'A';
  }

  /**
   * The search finds something exactly when some key constrains `col`, and
   * then it is the statement of the last such key.
   */
  lemma {:induction false} LastFkMatch(table: string, fks: seq<ForeignKey>, col: string)
    ensures LastFkStatement(table, fks, col) == "" <==> LastMatch(fks, col) == -1
    ensures LastMatch(fks, col) >= 0 ==> LastFkStatement(table, fks, col) == FkStatement(table, fks[LastMatch(fks, col)])
  {
    if fks != [] {
      var n := |fks| - 1;
      LastFkMatch(table, fks[..n], col);
      if col in fks[n].constrained {
        FkStatementNonEmpty(table, fks[n]);
      }
    }
  }

  /**
   * The FK search of sync_db: walks the table's foreign keys, overwriting the
   * statement at every key that constrains the column.
   */
  method FindFkStatement(table: string, fks: seq<ForeignKey>, col: string) returns (statement: string)
    ensures statement == LastFkStatement(table, fks, col)
  {
    statement := "";
    if |fks| > 0 {
      for i := 0 to |fks|
        invariant statement == LastFkStatement(table, fks[..i], col)
      {
        assert fks[..i + 1][..i] == fks[..i];
        if col in fks[i].constrained {
          statement := FkStatement(table, fks[i]);
        }
      }
      assert fks[..|fks|] == fks;
    }
  }

  // -------------------------------------------------------------- new tables

  const CreateMarker: string := "CREATE TABLE"

  /** The characters stripped from the extracted statement. */
  const StrippedChars: seq<char> := ['\n', '\t', '"']

  /**
   * The slicing of the dump text: from the first CREATE TABLE to the first
   * `;` after it, with Python's find and slice semantics when either is missing.
   */
  function ExtractCreate(dump: string): string
  {
    var starting := Find(dump, CreateMarker);
    var tableExport := SliceFrom(dump, starting);
    var ending := Find(tableExport, ";");
    SliceTo(tableExport, ending + 1)
  }

  /** The line written to the new-tables file for a table missing from the old side. */
  function CreateTableLine(dump: string): string
  {
    ReplaceAll(ExtractCreate(dump), StrippedChars, "")
  }

  /** The undo line for a missing table. */
  function DropTableStatement(table: string): string
  {
    "DROP TABLE IF EXISTS " + table + ";"
  }

  lemma FindFirst(s: string, pat: string, p: nat)
    requires OccursAt(s, pat, p)
    requires forall j :: 0 <= j < p ==> !OccursAt(s, pat, j)
    ensures Find(s, pat) == p
  {
  }

  lemma FindSemicolon(s: string, q: nat)
    requires q < |s| && s[q] == ';'
    requires forall k :: 0 <= k < q ==> s[k] != ';'
    ensures Find(s, ";") == q
  {
    assert OccursAt(s, ";", q) by {
      assert s[q..q + 1] == [s[q]];
    }
    forall j | 0 <= j < q
      ensures !OccursAt(s, ";", j)
    {
      assert s[j..j + 1] == [s[j]];
    }
    FindFirst(s, ";", q);
  }

  /** The CREATE TABLE marker holds no `;`, so the first `;` after it lies past its end. */
  lemma MarkerBeforeSemicolon(dump: string, p: nat, q: nat)
    requires OccursAt(dump, CreateMarker, p)
    requires p <= q < |dump| && dump[q] == ';'
    ensures q >= p + |CreateMarker|
  {
    forall k | p <= k < p + |CreateMarker|
      ensures dump[k] != ';'
    {
      assert dump[k] == dump[p..p + |CreateMarker|][k - p];
    }
  }

  lemma ExtractCreateSlice(dump: string, p: nat, q: nat)
    requires OccursAt(dump, CreateMarker, p)
    requires forall j :: 0 <= j < p ==> !OccursAt(dump, CreateMarker, j)
    requires p <= q < |dump| && dump[q] == ';'
    requires forall k :: p <= k < q ==> dump[k] != ';'
    ensures ExtractCreate(dump) == dump[p..q + 1]
  {
    FindFirst(dump, CreateMarker, p);
    var tableExport := dump[p..];
    assert SliceFrom(dump, p) == tableExport;
    FindSemicolon(tableExport, q - p);
    assert SliceTo(tableExport, q - p + 1) == dump[p..q + 1];
  }

  /**
   * When the dump has a CREATE TABLE whose first occurrence is at `p`, and the
   * first `;` from there on is at `q`, the extracted text is dump[p..q+1].
   */
  lemma ExtractCreateFound(dump: string, p: nat, q: nat)
    requires OccursAt(dump, CreateMarker, p)
    requires forall j :: 0 <= j < p ==> !OccursAt(dump, CreateMarker, j)
    requires p <= q < |dump| && dump[q] == ';'
    requires forall k :: p <= k < q ==> dump[k] != ';'
    ensures ExtractCreate(dump) == dump[p..q + 1]
    ensures StartsWith(ExtractCreate(dump), CreateMarker) && EndsWith(ExtractCreate(dump), ";")
  {
    ExtractCreateSlice(dump, p, q);
    MarkerBeforeSemicolon(dump, p, q);
    var r := dump[p..q + 1];
    assert r[..|CreateMarker|] == dump[p..p + |CreateMarker|];
    assert r[|r| - 1..] == [dump[q]];
  }

  /** When the dump has a CREATE TABLE but no `;` after it, nothing is extracted. */
  lemma ExtractCreateUnterminated(dump: string, p: nat)
    requires OccursAt(dump, CreateMarker, p)
    requires forall j :: 0 <= j < p ==> !OccursAt(dump, CreateMarker, j)
    requires forall k :: p <= k < |dump| ==> dump[k] != ';'
    ensures ExtractCreate(dump) == ""
  {
    var tableExport := dump[p..];
    assert Find(dump, CreateMarker) == p;
    forall j | true
      ensures !OccursAt(tableExport, ";", j)
    {
      if 0 <= j < |tableExport| {
        assert tableExport[j..j + 1] == [dump[p + j]];
      }
    }
  }

  /**
   * Without a CREATE TABLE, find gives -1 and the slice keeps only the dump's
   * last character: the result is ";" when that character is `;`, else "".
   */
  lemma ExtractCreateNoMarker(dump: string)
    requires forall j :: !OccursAt(dump, CreateMarker, j)
    ensures ExtractCreate(dump) == if |dump| > 0 && dump[|dump| - 1] == ';' then ";" else ""
  {
    var tableExport := SliceFrom(dump, -1);
    if |dump| > 0 {
      assert tableExport == [dump[|dump| - 1]];
      if dump[|dump| - 1] == ';' {
        assert OccursAt(tableExport, ";", 0);
      } else {
        assert forall j :: !OccursAt(tableExport, ";", j);
      }
    }
  }

  /**
   * The new-tables line is the extracted text with newlines, tabs and double
   * quotes removed, so it is a single line free of those characters.
   */
  lemma CreateTableLineClean(dump: string)
    ensures CreateTableLine(dump) == RemoveChars(ExtractCreate(dump), StrippedChars)
    ensures '\n' !in CreateTableLine(dump) && '\t' !in CreateTableLine(dump) && '"' !in CreateTableLine(dump)
    ensures IsSubsequence(CreateTableLine(dump), ExtractCreate(dump))
  {
    ReplaceAllEmptyIsRemove(ExtractCreate(dump), StrippedChars);
    RemoveCharsDropsListed(ExtractCreate(dump), StrippedChars);
    RemoveCharsInOrder(ExtractCreate(dump), StrippedChars);
  }
}
