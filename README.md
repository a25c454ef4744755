# Kanboard board columns, modelled in Dafny

This project models the board model of Kanboard (`app/Model/Board.php`): the `columns`
table holds one row per column of a project (id, project, title, position, task limit).
The board model creates a project's columns from a template list, copies them from
another project, appends, edits, reorders and deletes columns, and assembles the board
view from the columns and the swimlanes. It also checks the two column forms.

Modules:

- `Columns` (`columns.dfy`). The row type and a project's rows in table order
  (`ProjectRows`). It defines what "positions 1..N" means (`Contiguous`) and gives the
  `UPDATE`/`DELETE` statements as functions on the table. It also holds
  `getColumns` (`ProjectColumns`: a sort by position) and
  `getLastColumnPosition` (`LastPosition`).
- `Moves` (`moves.dfy`). `moveDown` and `moveUp` as pure functions of the table,
  with what they promise. The column's listed position is looked up in the
  `id => position` listing. Its neighbour is looked up in the listing's
  `array_flip`. Both positions are then written.
- `ColumnLifecycle` (`lifecycle.dfy`). What `create`, `duplicate`, `addColumn` and
  `removeColumn` do to a project's positions.
- `UserConfig` (`user_config.dfy`). `getUserColumns` and `getDefaultColumns`, with
  `explode`, `implode`, `trim` and `empty` written out.
- `PhpInt` (`int_cast.dfy`). PHP's `(int)` cast of a string, which `update` applies
  to submitted task limits, and the decimal text it reads back.
- `Validation` (`validation.dfy`). `validateModification` and `validateCreation` as
  plain rules over the submitted fields. A verdict and the list of failed rules come
  back in rule order.
- `BoardModel` (`board.dfy`). The table as the class `ColumnTable`. It has two
  fields: the rows and the next auto-increment id. Every state-changing operation
  of the source is a method. Each method's `ensures` ties the new table to the
  functions above, and the lemmas beside it state what that means. `getBoard` is
  a loop over swimlanes and columns.

Outside effects become parameters:

- A database refusal of a save is a parameter. For `create` and `duplicate` it is
  the set of failing attempt indices; for `addColumn` it is a `saveOk` flag.
- The swimlanes of the project are passed to `getBoard`, and so is the task finder,
  as a function `(project, column, swimlane) -> tasks`.
- The `board_columns` setting is an `Option<string>`.

## Model

| member | source | states |
|---|---|---|
| `Columns.ProjectRowsMembers` | app/Model/Board.php:304-307 | a project's rows are exactly the table rows with that project id |
| `Columns.ProjectColumns` | app/Model/Board.php:304-307 | `getColumns` is sorted by ascending position and holds exactly the project's rows (same multiset) |
| `Columns.LastPosition` | app/Model/Board.php:340-347 | 0 for a project with no column; otherwise a position some column holds and no column exceeds |
| `Columns.WithoutUnique` | app/Model/Board.php:356-359 | deleting by id keeps ids unique and removes exactly one row when the id is present, none otherwise |
| `Columns.ProjectRowsWithout` | app/Model/Board.php:356-359 | deleting a row and then selecting a project equals selecting and then deleting |
| `Moves.PositionOf` | app/Model/Board.php:181-184 | the listed position of an id is absent exactly when no listed row has that id, and is held by such a row when present |
| `Moves.ColumnAt` | app/Model/Board.php:182-187 | the flip finds nobody at a position exactly when no listed column holds it; otherwise it names one that does |
| `Moves.MovedDown` | app/Model/Board.php:179-198 | a refused `moveDown` leaves the table as it was; any outcome changes positions only |
| `Moves.MovedUp` | app/Model/Board.php:208-227 | a refused `moveUp` leaves the table as it was; any outcome changes positions only |
| `Moves.MoveDownResult` | app/Model/Board.php:184 | `moveDown` returns true iff the column is in the project at a position below the column count |
| `Moves.MoveUpResult` | app/Model/Board.php:213 | `moveUp` returns true iff the column is in the project at a position above 1 |
| `Moves.MoveDownExchanges` | app/Model/Board.php:184-195 | with positions 1..N, `moveDown` of the column at p < N trades positions p and p + 1 in that project and changes nothing else |
| `Moves.MoveUpExchanges` | app/Model/Board.php:213-224 | with positions 1..N, `moveUp` of the column at p > 1 trades positions p and p - 1 in that project and changes nothing else |
| `Moves.MoveDownKeepsContiguous` | app/Model/Board.php:179-198 | `moveDown` keeps ids unique, the column count, positions exactly 1..N, and every other project's rows |
| `Moves.MoveUpKeepsContiguous` | app/Model/Board.php:208-227 | `moveUp` keeps ids unique, the column count, positions exactly 1..N, and every other project's rows |
| `Moves.MoveUpThenDownRestores` | app/Model/Board.php:179-227 | `moveUp` then `moveDown` of the same column both return true and give back the original table |
| `Moves.MoveDownThenUpRestores` | app/Model/Board.php:179-227 | `moveDown` then `moveUp` of the same column both return true and give back the original table |
| `Moves.MoveDownRefusedAfterRemoval` | app/Model/Board.php:184 | once a column below N - 1 is removed from positions 1..N, `moveDown` refuses the column at N - 1 although a column still follows it |
| `Moves.MoveUpIntoGap` | app/Model/Board.php:213-222 | once the column at g is removed, `moveUp` of the column at g + 1 returns true, gives it g and moves no other column |
| `Moves.MovedUpMissed` | app/Model/Board.php:215-221 | when the flip finds nobody at p - 1, `moveUp` only writes p - 1 into the moved column and still returns true |
| `Moves.MovedDownMissed` | app/Model/Board.php:186-192 | when the flip finds nobody at p + 1, `moveDown` only writes p + 1 into the moved column and still returns true |
| `Moves.ProjectRowsWithPosition` | app/Model/Board.php:190 | writing one id's position and then listing a project equals listing it and then writing that position |
| `Moves.MoveDownKeepsDistinct` | app/Model/Board.php:179-198 | on a project whose positions are distinct but may have gaps, `moveDown` keeps ids unique, the column count and the positions distinct, whether the flip finds a neighbour or not |
| `Moves.MoveUpKeepsDistinct` | app/Model/Board.php:208-227 | on a project whose positions are distinct but may have gaps, `moveUp` keeps ids unique, the column count and the positions distinct, whether the flip finds a neighbour or not |
| `ColumnLifecycle.CreateOnEmptyProject` | app/Model/Board.php:65-84 | on a project with no columns, `create` makes its columns the templates in order with positions 1..N, leaving other projects alone |
| `ColumnLifecycle.DuplicateFidelity` | app/Model/Board.php:94-103 | the copy holds the source's titles and limits in ascending source position, renumbered 1..N, one column per source column |
| `ColumnLifecycle.LastPositionIsCount` | app/Model/Board.php:340-347 | with positions 1..N the last position is N |
| `ColumnLifecycle.AddColumnAfterAll` | app/Model/Board.php:114-124 | the added column comes after every column of the project, so positions stay distinct even with gaps |
| `ColumnLifecycle.AddColumnKeepsContiguous` | app/Model/Board.php:114-124 | with positions 1..N the added column gets N + 1 and the positions become 1..N + 1 |
| `ColumnLifecycle.RemoveColumnLeavesGap` | app/Model/Board.php:356-359 | removing any column but the last leaves N - 1 distinct positions that are not 1..N - 1, with a hole at the removed position |
| `UserConfig.Explode` | app/Model/Board.php:42 | `explode` gives at least one piece and no piece holds a comma |
| `UserConfig.ExplodeImplode` | app/Model/Board.php:42 | `explode` undoes `implode` on pieces without commas |
| `UserConfig.ImplodeExplode` | app/Model/Board.php:42 | `implode` undoes `explode`: no character of the setting is lost |
| `UserConfig.Trim` | app/Model/Board.php:47 | a trimmed name is empty or starts and ends with a non-blank |
| `UserConfig.TrimSlice` | app/Model/Board.php:47 | a trimmed name is a contiguous slice of the name, and every character cut off before or after it is a blank |
| `UserConfig.ColumnsFromNamesClean` | app/Model/Board.php:45-52 | every kept template has task limit 0 and a trimmed title that is neither "" nor "0" |
| `UserConfig.UserColumns` | app/Model/Board.php:40-55 | every user column has task limit 0 and a trimmed title that is neither "" nor "0" |
| `UserConfig.ColumnsFromNamesAppend` | app/Model/Board.php:45-52 | the names are handled one by one, in order |
| `UserConfig.NoCommaInTitles` | app/Model/Board.php:40-55 | no title read from the setting contains a comma |
| `UserConfig.UserColumnsOfNames` | app/Model/Board.php:40-55 | a setting of comma-joined clean names gives exactly those names, in order, each with limit 0 |
| `UserConfig.DefaultUserColumns` | app/Model/Board.php:29-55 | without a setting the columns are Backlog, Ready, Work in progress, Done, each with limit 0 |
| `UserConfig.DropsEmptyNames` | app/Model/Board.php:47-51 | a blank name or "0" gives no column and the names around it keep their order |
| `PhpInt.DigitRun` | app/Model/Board.php:146 | the digits read are the longest all-digit prefix |
| `PhpInt.DecimalValueOfDecimal` | app/Model/Board.php:146 | a number's decimal text denotes that number |
| `PhpInt.IntCastShow` | app/Model/Board.php:146 | `(int)` reads back any integer's PHP text, whatever non-digit text follows |
| `PhpInt.DigitsCast` | app/Model/Board.php:146 | a run of digits casts to the number it spells |
| `PhpInt.IntCastNoNumber` | app/Model/Board.php:146 | text with no sign or digit after the leading whitespace casts to 0 |
| `PhpInt.IntCastSkipsSpaces` | app/Model/Board.php:146 | leading whitespace does not change the cast |
| `Validation.ColumnFailures` | app/Model/Board.php:373-378 | a column's rules report nothing iff all four hold, and only about that column's two fields |
| `Validation.ValidateModification` | app/Model/Board.php:369-386 | the form is accepted iff the failure list is empty iff every listed column passes its four rules |
| `Validation.AllFailuresEmpty` | app/Model/Board.php:372-383 | the columns' rules, collected in order, report nothing iff every listed column passes its four rules |
| `Validation.ModificationErrorsExact` | app/Model/Board.php:372-383 | a failure is reported iff it is a failed rule of a listed column |
| `Validation.IntegerTextCast` | app/Model/Board.php:374 | the cast of a text that passes the integer rule is the number it spells |
| `Validation.AcceptedLimitIsPositive` | app/Model/Board.php:374-375 | a filled limit passing both limit rules is unsigned digits whose cast is positive |
| `Validation.ShowIsIntegerText` | app/Model/Board.php:374 | every integer's PHP text passes the integer rule |
| `Validation.ValidateCreation` | app/Model/Board.php:395-408 | accepted iff errors are empty iff the project id is filled and an integer and the title is filled and at most 50 characters |
| `Validation.CreationMissingTitle` | app/Model/Board.php:400-401 | a missing title is reported as missing and never as too long |
| `BoardModel.FirstFailure` | app/Model/Board.php:74-81 | the first refused save among n, or n: every earlier save succeeds and a value below n is refused |
| `BoardModel.LimitOf` | app/Model/Board.php:146 | a column with no submitted limit gets `(int) null`, that is 0; a submitted limit made of digits is stored as the number they spell |
| `BoardModel.UpdateKeepsBoard` | app/Model/Board.php:133-152 | `update` keeps ids unique, keeps every project's positions (1..N stays 1..N, last position unchanged) and sets exactly the titled columns' title and cast limit |
| `BoardModel.ValidatedUpdate` | app/Model/Board.php:133-152 | after an accepted form every listed titled column has a 1..50-character title and a limit that is 0 or positive, positive whenever filled in |
| `BoardModel.TwoUpdates` | app/Model/Board.php:188-191 | the two `UPDATE`s of a move write the exchange the move functions describe |
| `BoardModel.ColumnTable.Save` | app/Model/Board.php:78 | a save appends the row with the next id and keeps ids unique |
| `BoardModel.ColumnTable.Create` | app/Model/Board.php:65-84 | saves templates in order with positions 1, 2, ...; stops at the first refused save, keeping earlier rows, and returns whether all were saved |
| `BoardModel.ColumnTable.Duplicate` | app/Model/Board.php:94-103 | appends to the target the source's titles and limits, in ascending source position, with positions 1, 2, ... and the next ids, up to the first refused save; the id counter advances by the rows copied; returns whether all were copied |
| `BoardModel.ColumnTable.AddColumn` | app/Model/Board.php:114-124 | appends the column at the project's last position + 1 with the next id, advances the id counter by one and returns that id, or changes nothing when the save is refused |
| `BoardModel.ColumnTable.UpdateColumn` | app/Model/Board.php:163-169 | writes title and limit to the row with that id and nothing else |
| `BoardModel.ColumnTable.Update` | app/Model/Board.php:133-152 | after the loop over all submitted column ids the table is the edited table; returns true |
| `BoardModel.ColumnTable.MoveDown` | app/Model/Board.php:179-198 | the table and result are those of `MovedDown`; ids stay unique |
| `BoardModel.ColumnTable.MoveUp` | app/Model/Board.php:208-227 | the table and result are those of `MovedUp`; ids stay unique |
| `BoardModel.ColumnTable.RemoveColumn` | app/Model/Board.php:356-359 | deletes the row with that id, renumbers nothing and returns true |
| `BoardModel.LaneColumns` | app/Model/Board.php:247-250 | one entry per column in the given order, each with the finder's tasks for that column and swimlane and their count |
| `BoardModel.ColumnTable.GetBoard` | app/Model/Board.php:236-254 | one lane per swimlane in order, each with all the project's columns in position order, each with the finder's tasks for that column and swimlane and their count |

## Left out

- Transactions (`startTransaction`/`closeTransaction`) are not modelled. A
  method's writes are applied in order, and the one write the model treats as
  refused (`BoardModel.Edited` below) does not undo the others.
- Database failures are modelled only where the source looks at them: `create`'s
  save and `addColumn`'s persist. `updateColumn`, the moves and `removeColumn`
  are modelled as writes that succeed. The one write the model lets the database
  refuse is `update`'s `null` title, described under `BoardModel.Edited` below.
- The deletion of a removed column's tasks (a database cascade) is left out.
  `getColumnStats`, `getFirstColumn`, `getColumnsList`, `countColumns` and
  `getColumn` are left out too.
- Translation (`t()`) is left out: titles and messages are the untranslated
  texts, and a failure carries a rule tag instead of a message.
- The validator library is not part of this model. Each rule is written as its
  usual meaning:
  - "required" fails on a missing or empty value;
  - the other rules pass on a missing or empty value;
  - "integer" is an optional minus sign and one or more digits;
  - "greater than" compares the value read as `(int)` reads it;
  - "max length" counts characters.
- `Validation.PositiveRule`: reads a fractional text such as "0.5" as 0 rather
  than as a float. This only changes which failures are listed, because such a
  text already fails the integer rule.
- `Validation.ValidateModification`: gives failures as one flat list in rule
  order, not grouped by field name.
- `PhpInt.IntCast`: integers are unbounded, so a number past the platform's
  integer range does not saturate as PHP's cast does. The cast reads digits only,
  so "1e3" gives 1.
- `BoardModel.Edited`: when a column id arrives with a limit but no title,
  `update` writes a `null` title. The model assumes the schema's `NOT NULL` title
  refuses that write and leaves the row unchanged. The schema is not part of this
  model. The model keeps the writes to the other columns of the same call, which
  run in the same transaction. Whether the refused statement rolls that
  transaction back is up to the database layer, which is not part of this model.
  `BoardModel.UpdateKeepsBoard` and `BoardModel.ColumnTable.Update` rest on this
  assumption.
- `Moves.Swapped`: when the flip finds nobody at the target position, the second
  `UPDATE` of a move is issued with a `null` id. The model assumes that update
  matches no row and that the first `UPDATE` stands. How the database layer binds
  a `null` condition, and whether a failed statement rolls the transaction back,
  are not part of this model. `Moves.MovedUpMissed`, `Moves.MovedDownMissed`,
  `Moves.MoveUpIntoGap` and the gap case of `Moves.MoveDownKeepsDistinct` and
  `Moves.MoveUpKeepsDistinct` rest on this assumption.
- The order of a listing sorted by position is modelled as table order. This
  decides ties only: which of two columns sharing a position is listed first, and
  which one `array_flip` keeps.
- The configuration store is not part of this model. `getUserColumns` receives
  the `board_columns` setting, or its absence, as a parameter.
- Constraints of the schema, such as a title unique within a project, are not
  modelled. Their effect on `create` and `addColumn` is covered by the save-failure
  parameters.
