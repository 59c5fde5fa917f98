# Duplicate highlighting and column-width persistence of a Handsontable demo

The application is a single React component that embeds a Handsontable data
grid. Two small pieces of its own logic sit on top of the grid's configuration,
and this project models both of them in Dafny:

- **The duplicate annotator** (`checkForDuplicates`). It handles the watched
  columns 1, 4 and 6 (message identifier, job identifier, e-mail) in that
  order. For each one it counts how often every truthy value occurs. Then it
  walks the column again. A cell whose value is truthy and counted more than
  once gets the className `"duplicate-cell"`. A cell that is not a duplicate
  loses its className if that className is the marker. No write is made when
  the cell is already in the right state. The change handler re-runs the
  annotator after the change sources `edit`, `CopyPaste.paste`,
  `Autofill.fill`, `Undo` and `Redo`. The undo and redo handlers re-run it too.
- **The column-width vector.** At startup it is loaded from browser storage.
  It is empty when nothing is stored, when the stored text is the empty string,
  `"undefined"` or `"null"`, or when parsing fails. A column resize copies the
  vector, sets the resized column's entry, and writes the whole vector back.

Modules:

- `Options` (options.dfy): the `Option` datatype.
- `Grid` (grid.dfy): cell values, with every JavaScript falsy case as a value of
  its own, JavaScript truthiness, and the table as `seq<seq<Value>>`.
  `Grid.ColumnOf` stands for the grid's column read (`hot.getDataAtCol`,
  src/App.tsx:34): one value per row, `undefined` past the end of a row.
- `CellMeta` (cell_meta.dfy): each cell's own className as
  `map<(int, int), string>`, and the metadata writes.
- `Duplicates` (duplicates.dfy): the annotator as pure functions, an
  independent reference definition of "duplicate", and the lemmas connecting
  the two.
- `ColumnWidths` (column_widths.dfy): loading the vector and updating one entry.
- `App` (app.dfy): the event handlers and the storage round trip.

The annotator is checked against a reference definition. That definition says
cell (r, c) is a duplicate when its value is truthy and some *other* row of
column c holds the same value. It never mentions counts. The lemmas prove that
the two-pass counting algorithm agrees with it for every table and every
starting metadata. Idempotence comes out of that: a second run performs zero
writes. So do the frame properties and column-order independence.

The loader tests whether the stored text is falsy. So the empty string also
counts as "no saved widths", next to the two sentinel texts.

## Model

| member | source | states |
|---|---|---|
| Duplicates.Counts | src/App.tsx:35-42 | the count map holds exactly the truthy values that occur in the column, and each one's count is its number of occurrences |
| Duplicates.CountedTwiceIffRepeated | src/App.tsx:40-46 | a value is counted more than once exactly when some other row holds it too |
| Duplicates.IsDuplicateIffDuplicated | src/App.tsx:46 | the counting test `val && counts.get(val) > 1` agrees with the reference definition (truthy, and repeated in another row) |
| Duplicates.UpdateCell | src/App.tsx:51-61 | a duplicate ends with the marker; a non-duplicate that had the marker ends with no className; any other cell is kept; no other cell changes; a write happens exactly when the metadata changes, at most one write per cell, and replaying it gives the new metadata |
| Duplicates.MarkRows | src/App.tsx:45-62 | after the marking pass over the first n rows, each of those cells is in its target state for the count-based decision, and every other cell is unchanged |
| Duplicates.AnnotateColumn | src/App.tsx:34-62 | one column pass (count, then mark) leaves every cell outside that column, and every row the grid does not have, unchanged |
| Duplicates.AnnotateColumns | src/App.tsx:33-63 | processing a list of columns in order leaves every cell outside those columns, and every row the grid does not have, unchanged |
| Duplicates.AnnotateColumnSpec | src/App.tsx:33-63 | one column pass leaves each cell of that column as the reference definition says, and every other cell unchanged |
| Duplicates.AnnotateColumnsSpec | src/App.tsx:31-63 | processing any list of columns in order, repeats included, leaves every cell as the reference definition says |
| Duplicates.CheckForDuplicates | src/App.tsx:27-29 | the annotator does something exactly when the grid is available |
| Duplicates.CheckSpec | src/App.tsx:27-66 | the annotator's result on the watched columns {1, 4, 6} matches the reference definition cell by cell |
| Duplicates.MarkedIffDuplicated | src/App.tsx:38-56 | afterwards, a watched cell carries the marker if and only if its value is truthy and occurs in at least one other row of its column |
| Duplicates.FalsyNeverMarked | src/App.tsx:38-46 | a cell holding undefined, null, false, 0, NaN or "" never carries the marker afterwards, however many rows share that value |
| Duplicates.AllOccurrencesMarked | src/App.tsx:38-56 | marking is symmetric: every occurrence of a repeated truthy value is marked, the first included, because counting finishes before marking starts |
| Duplicates.OnlyWatchedCellsTouched | src/App.tsx:31-34 | the metadata of cells outside columns 1, 4 and 6, and of rows the grid does not have, is unchanged |
| Duplicates.OtherClassNamesKept | src/App.tsx:53-60 | a non-duplicate keeps any className other than the marker; a non-duplicate that had the marker loses it, so only the marker is ever removed; a duplicate's own className is replaced by the marker (line 55), so once that cell is unmarked again its earlier className is gone |
| Duplicates.ColumnOrderIrrelevant | src/App.tsx:31-33 | any two column lists with the same members produce the same metadata |
| Duplicates.MarkRowsReplay | src/App.tsx:53-60 | performing a column pass's recorded writes in order on the starting metadata gives exactly the metadata it computes |
| Duplicates.AnnotateColumnsReplay | src/App.tsx:33-63 | performing the annotator's recorded writes in order on the starting metadata gives exactly the metadata it computes |
| Duplicates.MarkRowsQuiet | src/App.tsx:53-60 | a column pass over cells already in their target state makes no write and changes nothing |
| Duplicates.AnnotateColumnsQuiet | src/App.tsx:33-63 | annotating metadata that already matches the reference definition makes no write and changes nothing |
| Duplicates.Idempotent | src/App.tsx:27-66 | a second run on unchanged data makes zero setCellMeta/removeCellMeta writes and leaves the metadata the first run produced |
| Duplicates.MarkRowsWrites | src/App.tsx:45-62 | every write of a column pass is to that column within the pass's rows, in strictly increasing row order (so no cell twice); the marker is set only on a counted duplicate whose className was not the marker, and a className is removed only from a non-duplicate whose className was the marker |
| Duplicates.WritesJustified | src/App.tsx:53-60 | every write of the annotator is to a listed column of an existing row; the marker is set only on a duplicate, and a className is removed only from a non-duplicate; when no column is listed twice, every write also changes the starting metadata (set only where the marker was absent, remove only where it was present) and no cell is written twice |
| Duplicates.WritesOnlyWhereNeeded | src/App.tsx:51-60 | on the watched columns {1, 4, 6}: setCellMeta only on a duplicate whose className was not the marker, removeCellMeta only on a non-duplicate whose className was the marker, and at most one write per cell |
| ColumnWidths.LoadWidths | src/App.tsx:13-22 | absent storage, the sentinel texts and text the parser rejects load as the empty vector; any other stored text loads as exactly its parsed value, and no other result is possible, so a parse failure never escapes |
| ColumnWidths.LoadRecovers | src/App.tsx:13-22 | absent storage, the texts "", "undefined" and "null", and text the parser rejects all load as the empty vector, never an error |
| ColumnWidths.LoadParsed | src/App.tsx:18 | any other text that parses loads as exactly its parsed value |
| ColumnWidths.SetWidth | src/App.tsx:98-99 | after a resize of column k to s: length max(old length, k + 1), entry k is s, every other old entry is kept, gap entries are holes |
| ColumnWidths.SetWidthLastWins | src/App.tsx:98-99 | resizing the same column twice keeps only the second size |
| ColumnWidths.SetWidthCommutes | src/App.tsx:98-99 | resizing two different columns gives the same vector in either order |
| App.Init | src/App.tsx:12-23 | at startup the widths come from the stored text under the fixed key: empty when no text is stored, when it is a sentinel or when it does not parse, and otherwise exactly its parse; the grid and the store are untouched |
| App.RunCheck | src/App.tsx:87-91 | running the annotator keeps the widths, the store and the grid data, and leaves the metadata as the reference definition of duplicates says for columns 1, 4 and 6 |
| App.Rescans | src/App.tsx:86 | the change filter: membership of the source tag in edit, CopyPaste.paste, Autofill.fill, Undo and Redo; its effect is stated by App.IgnoredChangeIsNoOp and App.RescanMarksDuplicates |
| App.Handle | src/App.tsx:84-105 | a change whose source is outside the filter leaves the whole state as it was; a change from a filtered source, an undo and a redo each re-run the annotator, leaving the metadata as the reference definition of duplicates says for columns 1, 4 and 6 (so cells elsewhere and non-marker classNames of non-duplicates are kept); change, undo and redo keep the widths, the store and the grid data; a resize leaves the grid and its metadata alone |
| App.IgnoredChangeIsNoOp | src/App.tsx:84-89 | a change from a source outside edit, CopyPaste.paste, Autofill.fill, Undo and Redo changes nothing |
| App.RescanMarksDuplicates | src/App.tsx:84-89 | a change from one of those five sources re-runs the annotator: afterwards the marker is on exactly the duplicate watched cells, and the data, widths and store are unchanged |
| App.NotReadyIsNoOp | src/App.tsx:28-29 | while the grid is not available, change, undo and redo events do nothing |
| App.UndoRunsTwiceHarmlessly | src/App.tsx:86-91 | an undo that fires both the change handler (source Undo) and the undo handler ends in the same state as one annotator run |
| App.ResizeKeepsGrid | src/App.tsx:97-105 | a resize stores the serialized updated vector under the fixed key, keeps it as the current vector, and leaves the grid and its metadata alone |
| App.ResizeThenReload | src/App.tsx:97-105 | after a resize, a fresh start on the same store restores the updated vector, provided the parser reads back what the serializer writes and the serializer writes an array |
| App.SortThenEditScenario | src/App.tsx:84-89 | with e-mail values A, B, A, a sort leaves the state unchanged, while an edit marks rows 0 and 2 and leaves row 1 unmarked |

## Left out

- React state, rendering and JSX, and the grid's configuration: pagination,
  menus, hidden rows and columns, sorting, filters, fixed columns, row moves
  and resizing. These are settings of a library whose code is not part of this
  model. The component's width state is the `widths` field of the application
  state.
- Browser storage is a `map<string, string>`. Reading the stored text is a map
  lookup, which cannot throw. The source also catches a throwing
  `localStorage.getItem`, and that case is not modelled.
- `JSON.parse` and `JSON.stringify` are foreign code. They are function
  parameters: a parser returning `Option` (None where it throws) and a
  serializer. The round trip is assumed as a precondition of
  `App.ResizeThenReload`. The parser is modelled as yielding only width
  vectors. Stored JSON that parses to something other than an array is returned
  as-is by the source, and that case is not modelled.
- The `localStorage.setItem` write on resize is the update of the store map.
  The storage write itself is I/O.
- `hot.render()` is a redraw request with no effect on data or metadata, so it
  is not modelled. The grid's event dispatch is reduced to the `Event`
  datatype. The order in which the grid fires `afterChange` and `afterUndo`
  matters only through idempotence.
- `console.warn` logging, `registerAllModules`, and the `./data` module are not
  part of this model.
- Cell metadata is only each cell's own `className`. A cell with no own
  className may still show one inherited from the table's settings. That
  inherited className is never the marker, so the annotator's decisions do not
  depend on it.
- Row and column numbers are the indices the grid's accessors use. The
  translation between visual and physical indices under sorting or row moves
  happens inside the grid and is not modelled.
- Numbers are Dafny reals. Infinities are not modelled. `NaN` is a value of its
  own and is falsy, so it is never counted. `-0` and `0` are the same real, as
  they are to the JavaScript `Map` key comparison.
- Resized column indices are natural numbers and sizes are integers. The grid
  reports a non-negative column index. A non-integer index would set an object
  property rather than an array entry, and that case is not modelled.
- The change filter compares the source tag as a literal string. Which tags the
  grid actually emits for undo and redo is grid behaviour and is not modelled.
