/** The application's event handling: which grid events re-run the duplicate
    annotator, and how a column resize updates and stores the width vector. */
module App {
  import opened Options
  import opened Grid
  import opened CellMeta
  import opened Duplicates
  import opened ColumnWidths

  /** The key/value store the widths are kept in. */
  type Store = map<string, string>

  /** The storage key of the saved width vector. */
  const WidthsKey: string := "handsontable-column-widths"

  /** The change sources after which the annotator re-runs. */
  const RescanSources: seq<string> := ["edit", "CopyPaste.paste", "Autofill.fill", "Undo", "Redo"]

  /** Application state: the grid (None until it is available), the width
      vector held by the component, and the store. */
  datatype AppState = AppState(hot: Option<Host>, widths: WidthVector, store: Store)

  /** The grid events the application reacts to. */
  datatype Event =
    | Change(source: string)
    | UndoDone
    | RedoDone
    | ColumnResize(newSize: int, column: nat)

  /** Startup: the width vector is loaded from the store. */
  function Init(hot: Option<Host>, store: Store, parse: string -> Option<WidthVector>): (r: AppState)
    ensures r.hot == hot && r.store == store
    ensures WidthsKey !in store ==> r.widths == []
    ensures r.widths == [] || (WidthsKey in store && parse(store[WidthsKey]) == Some(r.widths))
    ensures WidthsKey in store && (IsSentinel(store[WidthsKey]) || parse(store[WidthsKey]).None?) ==>
      r.widths == []
    ensures WidthsKey in store && !IsSentinel(store[WidthsKey]) && parse(store[WidthsKey]).Some? ==>
      r.widths == parse(store[WidthsKey]).value
  {
    AppState(hot, LoadWidths(if WidthsKey in store then Some(store[WidthsKey]) else None, parse), store)
  }

  /** Run the annotator and keep the metadata it leaves. */
  function RunCheck(app: AppState): (r: AppState)
    ensures r.widths == app.widths && r.store == app.store
    ensures r.hot.Some? <==> app.hot.Some?
    ensures app.hot.Some? ==>
      && r.hot.value.table == app.hot.value.table
      && Annotated(app.hot.value.table, WatchedColumns, app.hot.value.meta, r.hot.value.meta)
  {
    match CheckForDuplicates(app.hot)
    case None => app
    case Some(step) =>
      CheckSpec(app.hot.value.table, app.hot.value.meta);
      app.(hot := Some(app.hot.value.(meta := step.meta)))
  }

  /** The change filter: whether a change with this source re-runs the annotator. */
  predicate Rescans(source: string) {
    source in RescanSources
  }

  /** One event. `serialize` stands for the JSON serializer. */
  function Handle(app: AppState, ev: Event, serialize: WidthVector -> string): (r: AppState)
    ensures ev.ColumnResize? ==> r.hot == app.hot
    ensures !ev.ColumnResize? ==>
      && r.widths == app.widths && r.store == app.store
      && (r.hot.Some? <==> app.hot.Some?)
      && (app.hot.Some? ==> r.hot.value.table == app.hot.value.table)
    ensures ev.Change? && !Rescans(ev.source) ==> r == app
    ensures app.hot.Some? && (ev.UndoDone? || ev.RedoDone? || (ev.Change? && Rescans(ev.source))) ==>
      Annotated(app.hot.value.table, WatchedColumns, app.hot.value.meta, r.hot.value.meta)
  {
    match ev
    case Change(source) => if Rescans(source) then RunCheck(app) else app
    case UndoDone => RunCheck(app)
    case RedoDone => RunCheck(app)
    case ColumnResize(size, k) =>
      var w := SetWidth(app.widths, k, size);
      app.(widths := w, store := app.store[WidthsKey := serialize(w)])
  }

  /** A change from any source outside the filter (a sort, a data load, a row
      move) leaves the whole state as it was. */
  lemma IgnoredChangeIsNoOp(app: AppState, source: string, serialize: WidthVector -> string)
    requires source !in RescanSources
    ensures Handle(app, Change(source), serialize) == app
  {
  }

  /** A change from a filtered source re-runs the annotator: afterwards each
      watched cell carries the marker exactly when it is a duplicate, and only
      the grid metadata changes. */
  lemma RescanMarksDuplicates(app: AppState, source: string, serialize: WidthVector -> string, r: nat, c: int)
    requires source in RescanSources && app.hot.Some?
    requires r < |app.hot.value.table| && c in WatchedColumns
    ensures var app2 := Handle(app, Change(source), serialize);
            && app2.hot.Some? && app2.hot.value.table == app.hot.value.table
            && app2.widths == app.widths && app2.store == app.store
            && (Get(app2.hot.value.meta, (r, c)) == Some(Marker) <==> Duplicated(app.hot.value.table, r, c))
  {
    MarkedIffDuplicated(app.hot.value.table, app.hot.value.meta, r, c);
  }

  /** While the grid is not available the annotator does nothing. */
  lemma NotReadyIsNoOp(app: AppState, ev: Event, serialize: WidthVector -> string)
    requires app.hot.None? && !ev.ColumnResize?
    ensures Handle(app, ev, serialize) == app
  {
  }

  /** An undo fires both the change handler (source "Undo") and the undo
      handler; running the annotator twice ends where running it once does. */
  lemma UndoRunsTwiceHarmlessly(app: AppState, serialize: WidthVector -> string)
    ensures Handle(Handle(app, Change("Undo"), serialize), UndoDone, serialize)
         == Handle(app, UndoDone, serialize)
  {
    if app.hot.Some? {
      Idempotent(app.hot.value.table, app.hot.value.meta);
    }
  }

  /** A resize updates the width vector and the store and leaves the grid alone. */
  lemma ResizeKeepsGrid(app: AppState, size: int, k: nat, serialize: WidthVector -> string)
    ensures var app2 := Handle(app, ColumnResize(size, k), serialize);
            && app2.hot == app.hot
            && app2.widths == SetWidth(app.widths, k, size)
            && app2.store == app.store[WidthsKey := serialize(app2.widths)]
  {
  }

  /** Width round trip: after a resize, a fresh start on the same store restores
      the widths held before the restart, provided the JSON parser reads back
      what the serializer wrote and the serializer writes an array (text
      starting with '['). */
  lemma ResizeThenReload(app: AppState, size: int, k: nat,
                         serialize: WidthVector -> string, parse: string -> Option<WidthVector>)
    requires forall w :: parse(serialize(w)) == Some(w)
    requires forall w :: |serialize(w)| > 0 && serialize(w)[0] == '['
    ensures var app2 := Handle(app, ColumnResize(size, k), serialize);
            Init(app2.hot, app2.store, parse).widths == app2.widths
  {
    var w := SetWidth(app.widths, k, size);
    var text := serialize(w);
    assert text[0] == '[';
    assert !IsSentinel(text);
  }

  /** The rows of the worked case: the e-mail column holds A, B, A. */
  predicate ScenarioTable(g: Table) {
    var row := (a: string) => [Null, Null, Null, Null, Null, Null, Str(a)];
    g == [row("A@x.com"), row("B@x.com"), row("A@x.com")]
  }

  /** In the worked case rows 0 and 2 are duplicates and row 1 is not. */
  lemma ScenarioDuplicates(g: Table)
    requires ScenarioTable(g)
    ensures |g| == 3 && Duplicated(g, 0, 6) && Duplicated(g, 2, 6) && !Duplicated(g, 1, 6)
  {
    assert CellAt(g, 0, 6) == Str("A@x.com") == CellAt(g, 2, 6);
    assert CellAt(g, 1, 6) == Str("B@x.com");
  }

  /** A worked case: three rows whose e-mail column (column 6) holds A, B, A.
      A sort changes nothing; an edit marks rows 0 and 2 and leaves row 1 unmarked. */
  lemma SortThenEditScenario(g: Table, serialize: WidthVector -> string)
    requires ScenarioTable(g)
    ensures var app := AppState(Some(Host(g, map[])), [], map[]);
            && Handle(app, Change("ColumnSorting.sort"), serialize) == app
            && var m := Handle(app, Change("edit"), serialize).hot.value.meta;
               Get(m, (0, 6)) == Some(Marker) && Get(m, (2, 6)) == Some(Marker) && Get(m, (1, 6)) == None
  {
    ScenarioDuplicates(g);
    var app := AppState(Some(Host(g, map[])), [], map[]);
    assert "ColumnSorting.sort" !in RescanSources;
    assert "edit" in RescanSources;
    var app2 := Handle(app, Change("edit"), serialize);
    assert app2 == RunCheck(app);
    var m := app2.hot.value.meta;
    assert Annotated(g, WatchedColumns, map[], m);
    assert Get(m, (0, 6)) == Expected(g, WatchedColumns, map[], (0, 6));
    assert Get(m, (1, 6)) == Expected(g, WatchedColumns, map[], (1, 6));
    assert Get(m, (2, 6)) == Expected(g, WatchedColumns, map[], (2, 6));
  }
}
