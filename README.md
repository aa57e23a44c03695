# sync_schema: a verified model of the schema diff

`sync_schema.py` compares a "new" MySQL database with an "old" one. For each
table of the new side it writes SQL that brings the old side up to date, and
SQL that undoes it:

- **Missing column** (the table exists on both sides): one
  `ALTER TABLE … ADD COLUMN …;` line, then one `ADD CONSTRAINT … FOREIGN KEY`
  line when a foreign key constrains the column, both into `new_columns.sql`.
  An `ALTER TABLE … DROP COLUMN …;` line goes into `undo_columns.sql`.
- **Missing table** (the old side cannot describe the table): the
  `CREATE TABLE` statement cut out of a `mysqldump` of the table, with
  newlines, tabs and double quotes removed, into `new_tables.sql`. A
  `DROP TABLE IF EXISTS …;` line goes into `undo_tables.sql`.

The script counts missing tables and missing columns. At the end it prints
either "in sync" or the two counts.

The model has four modules:

- `Wrappers` (`wrappers.dfy`): `Option`.
- `Text` (`text.dfy`): the Python string operations the script relies on.
  - `str.find`, which returns -1 when there is no match.
  - `s[i:]` and `s[:j]`, including negative indices.
  - `str.replace` of one character, and `','.join`.
  - `replaceChars`, an imperative loop that reassigns the string once per
    listed character. It is proved against a reference definition,
    `RemoveChars`, which drops the listed characters.
- `Statements` (`statements.dfy`): the SQL text.
  - The three templates, filled in exactly as Python's `str.format` fills
    them. The line continuation inside the foreign-key template leaves 21
    spaces before `REFERENCES`.
  - The foreign-key search. It overwrites its result at every matching key,
    so the last match wins.
  - The `CREATE TABLE` extraction. It follows `find` and slicing, including
    what they do when the marker or the `;` is missing.
- `Sync` (`sync.dfy`): the per-table work of `sync_db`.
  - A `SyncRun` class holds the four output files (as line buffers) and the
    two counters. `ProcessTable` is the body of the table loop, and `SyncDb`
    is the loop plus the choice of summary.
  - Each method is proved to move the state exactly as the pure
    specification functions `Step` and `Run` say.
  - The properties are lemmas about `Step` and `Run`: which lines are
    written, in what order, how the counters grow, and when the run reports
    "in sync".

The missing columns come from a Python `set`, whose iteration order is not
specified. The model visits them in an arbitrary order, chosen with `:|`.
It returns that order as a ghost value, and every property holds for every
order.

## Model

| member | source | states |
|---|---|---|
| Text.Find | sync_schema.py:140 | the result is -1 exactly when the pattern occurs nowhere; otherwise the pattern occurs there and at no lower index |
| Text.SliceFrom | sync_schema.py:141 | Python `s[i:]`: always a suffix of `s`; `s[i..]` for an in-range index; "" past the end; a negative index keeps the last `-i` characters, or the whole string when `-i` exceeds its length |
| Text.SliceTo | sync_schema.py:143 | Python `s[:j]`: always a prefix of `s`; `s[..j]` for an in-range index; all of `s` past the end; a negative index drops the last `-j` characters, or yields "" when `-j` exceeds the length |
| Text.ReplaceChars | sync_schema.py:21-36 | the loop yields the string with each listed character replaced in turn, first to last; with the default empty replacement, this is exactly the string with the listed characters removed |
| Text.ReplaceCharEmptyIsRemove | sync_schema.py:34 | replacing one character by "" removes every occurrence of it and nothing else |
| Text.ReplaceAllEmptyIsRemove | sync_schema.py:33-36 | replacing the listed characters one after another by "" equals removing all of them at once |
| Text.RemoveCharsDropsListed | sync_schema.py:21-36 | no listed character survives |
| Text.RemoveCharsKeepsOthers | sync_schema.py:21-36 | every character that is not listed survives exactly as often as it occurred |
| Text.RemoveCharsInOrder | sync_schema.py:21-36 | the surviving characters keep their order: the result is a subsequence of the input |
| Statements.AddColumnNullability | sync_schema.py:91 | right after the head of the ADD COLUMN statement comes `NOT NULL ` exactly when the nullable flag is true, and `NULL ` when it is false |
| Statements.AddColumnDefault | sync_schema.py:92 | after the nullability keyword and its space, `DEFAULT ` appears exactly when the default is present and non-empty, and then it reads `DEFAULT <value> ` |
| Statements.AddColumnComment | sync_schema.py:93 | every ADD COLUMN statement ends with ` COMMENT '<comment>'`, where a missing comment reads None |
| Statements.FkStatementStart | sync_schema.py:104-107 | an ADD CONSTRAINT statement starts with `ALTER TABLE <table> ADD CONSTRAINT <name> FOREIGN KEY (` |
| Statements.FkOnDelete | sync_schema.py:110 | after the referenced columns comes `ON DELETE <action>` exactly when the key has an ondelete option |
| Statements.FkOnUpdate | sync_schema.py:111 | the statement ends with ` ON UPDATE <action>;` when the key has an onupdate option, and with ` ;` otherwise |
| Statements.FkStatementNonEmpty | sync_schema.py:120 | a rendered ADD CONSTRAINT statement is never empty, so a found key is always written |
| Statements.FkNotAddColumn | sync_schema.py:15-18 | an ADD CONSTRAINT statement never starts like an ADD COLUMN line of the same table (`ALTER TABLE <table> ADD COLUMN `) |
| Statements.LastMatch | sync_schema.py:102-103 | the index of the last key whose constrained columns include the column, or -1 when no key constrains it |
| Statements.LastFkMatch | sync_schema.py:99-112 | the search finds no statement exactly when no key constrains the column; otherwise it finds the statement of the last such key |
| Statements.FindFkStatement | sync_schema.py:99-112 | the loop over the keys ends with the last-match statement, or "" when no key matches |
| Statements.ExtractCreateFound | sync_schema.py:140-143 | with a CREATE TABLE first at `p` and the first `;` after it at `q`, the extracted text is `dump[p..q+1]`; it starts with CREATE TABLE and ends with `;` |
| Statements.ExtractCreateUnterminated | sync_schema.py:140-143 | with a CREATE TABLE but no `;` after it, the extracted text is empty |
| Statements.ExtractCreateNoMarker | sync_schema.py:140-143 | with no CREATE TABLE, `find` gives -1, so the slice keeps only the dump's last character; the result is ";" when that character is `;`, and "" otherwise |
| Statements.CreateTableLineClean | sync_schema.py:148 | the new-tables line is the extracted text without newlines, tabs and double quotes: none of them remains, and the other characters keep their order |
| Sync.ColumnsByName | sync_schema.py:76 | the dict built from a column list has exactly the listed names as keys, and each key maps to a column of that name |
| Sync.ColumnsByNameLastWins | sync_schema.py:76 | when several columns share a name, the dict keeps the last of them |
| Sync.ColumnDiff | sync_schema.py:80 | the missing columns are exactly the names of the new side that the old side lacks; each of them is a key of the new side's dict |
| Sync.OrderLength | sync_schema.py:84 | a visiting order that lists each missing column once has as many entries as there are missing columns |
| Sync.ColumnAddLinesFk | sync_schema.py:99-121 | a missing column yields its ADD line with `;`, then exactly one FK line exactly when some key constrains the column; that line is the statement of the last such key |
| Sync.ColumnsStepNew | sync_schema.py:118-121 | the column path appends to the new-columns buffer exactly the lines of each visited column, in visiting order: its ADD line, then its FK line if any |
| Sync.AddLinesCount | sync_schema.py:118-121 | the new-columns lines of a visiting order hold exactly one ADD COLUMN line per visited column |
| Sync.AddLinesAddColumn | sync_schema.py:118-121 | among the new-columns lines of a visiting order, a line is an ADD COLUMN line exactly when it is the ADD line of a visited column |
| Sync.DropColumnInjective | sync_schema.py:114 | different columns give different DROP COLUMN lines |
| Sync.DropLinesNameColumns | sync_schema.py:114-125 | among the DROP COLUMN lines of a visiting order, a line for column `c` appears exactly when the order visits `c` |
| Sync.ColumnsStepUndo | sync_schema.py:123-125 | the column path appends to the undo buffer one DROP COLUMN line per visited column, in visiting order, and nothing else |
| Sync.ColumnsStepCounts | sync_schema.py:118-126 | the column path adds one missing column and one undo line per visited column, and keeps the existing new-columns lines as a prefix. The table buffers and the missing-table count are untouched (the exact new-columns lines are in Sync.ColumnsStepNew) |
| Sync.StepColumns | sync_schema.py:80-126 | for a table present on both sides, the new undo lines are one DROP COLUMN line for each column the new side has and the old lacks, and none for any other column. The missing-column count grows by the number of such columns |
| Sync.StepNewColumns | sync_schema.py:84-121 | for a table present on both sides, the new-columns buffer grows by exactly the lines of the missing columns, in visiting order |
| Sync.StepAddColumnCount | sync_schema.py:84-121 | for a table present on both sides, the added new-columns lines hold exactly one ADD COLUMN line per column the new side has and the old lacks |
| Sync.StepAddColumnLines | sync_schema.py:84-121 | an added new-columns line is an ADD COLUMN line exactly when it is the ADD line of a column the new side has and the old lacks |
| Sync.StepInSync | sync_schema.py:80-82 | a table present on both sides whose new columns all exist on the old side changes no buffer and no counter |
| Sync.StepTables | sync_schema.py:127-154 | a table the old side cannot describe appends its cleaned CREATE TABLE line and its DROP TABLE line, counts one missing table, and leaves both column buffers and the missing-column count alone; any other table leaves the table buffers and the missing-table count alone |
| Sync.StepCounters | sync_schema.py:126-154 | one table adds 1 to the missing-table count when the old side lacks it, and otherwise adds the number of its missing columns to the missing-column count; the undo-columns buffer grows exactly as the missing-column count |
| Sync.RunTables | sync_schema.py:146-152 | over a run, the table buffers hold one CREATE TABLE line and one DROP TABLE line per missing table, in table order |
| Sync.RunCounters | sync_schema.py:70-154 | the final counters are the number of missing tables and the total number of missing columns over tables present on both sides |
| Sync.RunUndoColumns | sync_schema.py:123-126 | the undo-columns file has exactly as many lines as the missing-column count |
| Sync.NothingMissing | sync_schema.py:156-160 | both counts are zero exactly when every table exists on the old side with all of its columns |
| Sync.RunInSyncEmpty | sync_schema.py:73-154 | when every table is in sync, the run writes no line and counts nothing |
| Sync.RunInSync | sync_schema.py:160-169 | the run reports "in sync" exactly when every table is in sync |
| Sync.Summarize | sync_schema.py:160-169 | "in sync" exactly when both counters are zero; otherwise the summary carries both counts |
| Sync.SyncRun.constructor | sync_schema.py:70-71 | a run starts with empty buffers and zero counters |
| Sync.SyncRun.ProcessTable | sync_schema.py:76-154 | the loop body moves the state exactly as `Step`, for the order in which it visited the missing columns; that order lists each missing column once |
| Sync.SyncRun.AddColumns | sync_schema.py:82-126 | visits every missing column exactly once, in some order; the state moves as `ColumnsStep` for that order |
| Sync.SyncRun.AddColumn | sync_schema.py:85-126 | appends the column's ADD line and its FK line (if any) to the new-columns buffer and its DROP line to the undo buffer, and counts one missing column |
| Sync.SyncRun.AddTable | sync_schema.py:140-154 | appends the cleaned CREATE TABLE line and the DROP TABLE line, and counts one missing table |
| Sync.SyncDb | sync_schema.py:55-169 | processes the tables in order, so the final state is `Run` of the inputs; the summary is chosen from the final counters |

## Left out

- Database access (sync_schema.py:64-68, 73, 76, 79, 99) is not modelled.
  - Each table comes in as a `TableInput`: the new side's columns and
    foreign keys, the old side's columns, and the dump text.
  - The old side's column list is `None` when that lookup raises an
    `SQLAlchemyError`, a connection error included.
  - An error while connecting before the loop (sync_schema.py:64-68) or in
    the new side's lookup (sync_schema.py:76) aborts the script, and is not
    modelled.
- The `except exc.SQLAlchemyError` clause at sync_schema.py:127 covers the
  whole try block. The model only reaches it from the old side's lookup.
  - An `SQLAlchemyError` raised part way through a table's columns, for
    example by the foreign-key lookup at sync_schema.py:99, would leave some
    of that table's column lines written and then take the table path as
    well. That case is not modelled.
  - Other errors in the try block, such as a failing file open or write
    (an `OSError`) or a missing key in a reflected record (a `KeyError`),
    are not caught there and abort the script. They are not modelled.
- `mysqldump` through `os.popen` (sync_schema.py:132-139) is not modelled:
  its output is the `dump` string of the input.
- File output (sync_schema.py:117-125, 146-152) is not modelled.
  - The four files become sequences of lines, one entry per `write` call.
  - The trailing newline of each write is left out, and so are the
    `sql/<date>/` paths.
  - The files are opened for appending in a directory named after the
    date (sync_schema.py:117-118, 146-147, 191-193). A second run on the
    same day appends to the lines of the first. The buffers hold only the
    current run's lines and start empty (Sync.SyncRun.constructor).
- `parse_config`, the command line and the creation of the output directory
  (sync_schema.py:39-52, 172 onwards) are not part of this model.
- Progress printing, the per-table `Done.` that depends on `cur_missing`, and
  the screen clear (sync_schema.py:74-75, 83, 128, 156-159) are not
  modelled. The final report (sync_schema.py:160-169) is modelled as the
  choice between the two `Summary` values.
- Python's set iteration order (sync_schema.py:84) is not modelled: the model
  proves its properties for every visiting order.
- Column records are modelled as plain text fields.
  - The column type is the text its SQLAlchemy type object formats to.
  - A default is an optional string: Python's falsy defaults are `None`
    and "".
  - A missing comment is formatted as the text `None`, as `str.format`
    does.
- Text.ReplaceChars: it takes single characters, whereas Python's
  `replaceChars` accepts strings of any length. The only caller passes
  single characters.
- The dump output that is not a well-formed statement is modelled as the
  source handles it, with no separate error.
  - Without a `CREATE TABLE` marker the line written is ";" or "", and
    without a terminating `;` it is "" (Statements.ExtractCreateNoMarker,
    Statements.ExtractCreateUnterminated).
  - There is no separate "dump extraction failed" outcome, because the
    script has none.
- Statements.FkOnUpdate: it states only the ending, not an
  if-and-only-if. An ON UPDATE action whose text ends in a space would make
  both endings possible.
