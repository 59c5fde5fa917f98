/** The duplicate annotator: for each watched column, count the truthy values,
    then mark every cell whose value occurs more than once and unmark every
    other cell that carries the marker, writing only where the state changes. */
module Duplicates {
  import opened Options
  import opened Grid
  import opened CellMeta

  /** The columns checked for duplicates, in the order they are processed
      (the message identifier, the job identifier and the e-mail address). */
  const WatchedColumns: seq<int> := [1, 4, 6]

  /** Metadata after some writes, with the writes that produced it. */
  datatype Step = Step(meta: Meta, writes: seq<Write>)

  /** The grid as the annotator reaches it: its data and its cell metadata. */
  datatype Host = Host(table: Table, meta: Meta)

  // ---------------------------------------------------------------------------
  // Reference definitions
  // ---------------------------------------------------------------------------

  /** Cell (r, c) holds a truthy value that some other row of column c also holds. */
  predicate Duplicated(g: Table, r: nat, c: int)
    requires r < |g|
  {
    Truthy(CellAt(g, r, c))
    && exists r2 :: 0 <= r2 < |g| && r2 != r && CellAt(g, r2, c) == CellAt(g, r, c)
  }

  /** The className a watched cell should end with, given whether it is a
      duplicate and the className it had: the marker on a duplicate; nothing
      where a non-duplicate carried the marker; otherwise what it had. */
  function Target(dup: bool, had: Option<string>): Option<string> {
    if dup then Some(Marker)
    else if had == Some(Marker) then None
    else had
  }

  /** The className cell k should carry after the columns `cols` of `g` have
      been annotated starting from metadata `m`. */
  function Expected(g: Table, cols: seq<int>, m: Meta, k: Cell): Option<string> {
    if k.1 in cols && 0 <= k.0 < |g| then Target(Duplicated(g, k.0, k.1), Get(m, k))
    else Get(m, k)
  }

  /** Metadata `m2` is what annotating the columns `cols` of `g` should turn `m` into. */
  ghost predicate Annotated(g: Table, cols: seq<int>, m: Meta, m2: Meta) {
    forall k :: Get(m2, k) == Expected(g, cols, m, k)
  }

  // ---------------------------------------------------------------------------
  // The annotator
  // ---------------------------------------------------------------------------

  /** The occurrence counts of the truthy values of a column, built in one pass
      from the top row down; falsy values are never counted. */
  function Counts(col: seq<Value>): (counts: map<Value, nat>)
    ensures forall v :: v in counts <==> Truthy(v) && v in col
    ensures forall v :: v in counts ==> counts[v] == multiset(col)[v]
    decreases |col|
  {
    if col == [] then map[]
    else
      var init := col[..|col| - 1];
      var v := col[|col| - 1];
      assert col == init + [v];
      var prev := Counts(init);
      if Truthy(v) then prev[v := (if v in prev then prev[v] else 0) + 1]
      else prev
  }

  /** A value is a duplicate when it is truthy and counted more than once. */
  predicate IsDuplicate(v: Value, counts: map<Value, nat>) {
    Truthy(v) && v in counts && counts[v] > 1
  }

  /** Bring one cell into line: set the marker on a duplicate that lacks it,
      remove the className of a non-duplicate that carries the marker, and
      write nothing otherwise. */
  function UpdateCell(m: Meta, k: Cell, dup: bool): (s: Step)
    ensures Get(s.meta, k) == Target(dup, Get(m, k))
    ensures forall k2 :: k2 != k ==> Get(s.meta, k2) == Get(m, k2)
    ensures s.writes == [] <==> s.meta == m
    ensures |s.writes| <= 1
    ensures ApplyWrites(m, s.writes) == s.meta
  {
    if dup then
      if Get(m, k) != Some(Marker) then Step(m[k := Marker], [SetMarker(k)])
      else Step(m, [])
    else
      if Get(m, k) == Some(Marker) then Step(m - {k}, [RemoveClassName(k)])
      else Step(m, [])
  }

  /** Update the first n cells of column c, top to bottom, against the counts. */
  function MarkRows(col: seq<Value>, counts: map<Value, nat>, c: int, n: nat, m: Meta): (s: Step)
    requires n <= |col|
    ensures forall k :: Get(s.meta, k) == (
              if k.1 == c && 0 <= k.0 < n then Target(IsDuplicate(col[k.0], counts), Get(m, k))
              else Get(m, k))
    decreases n
  {
    if n == 0 then Step(m, [])
    else
      var prev := MarkRows(col, counts, c, n - 1, m);
      var last := UpdateCell(prev.meta, (n - 1, c), IsDuplicate(col[n - 1], counts));
      Step(last.meta, prev.writes + last.writes)
  }

  /** Annotate one column: count its values, then update its cells. */
  function AnnotateColumn(g: Table, c: int, m: Meta): (s: Step)
    ensures forall k: Cell :: k.1 != c || !(0 <= k.0 < |g|) ==> Get(s.meta, k) == Get(m, k)
  {
    var col := ColumnOf(g, c);
    MarkRows(col, Counts(col), c, |col|, m)
  }

  /** Annotate the columns `cols` in order, each pass starting from the
      metadata the previous one left. */
  function AnnotateColumns(g: Table, cols: seq<int>, m: Meta): (s: Step)
    ensures forall k: Cell :: k.1 !in cols || !(0 <= k.0 < |g|) ==> Get(s.meta, k) == Get(m, k)
    decreases |cols|
  {
    if cols == [] then Step(m, [])
    else
      var first := AnnotateColumn(g, cols[0], m);
      var rest := AnnotateColumns(g, cols[1..], first.meta);
      Step(rest.meta, first.writes + rest.writes)
  }

  /** The annotator entry point: nothing happens while the grid is not yet
      available; otherwise the watched columns are annotated. */
  function CheckForDuplicates(hot: Option<Host>): (r: Option<Step>)
    ensures r.None? <==> hot.None?
  {
    match hot
    case None => None
    case Some(h) => Some(AnnotateColumns(h.table, WatchedColumns, h.meta))
  }

  // ---------------------------------------------------------------------------
  // Counting agrees with the reference definition
  // ---------------------------------------------------------------------------

  /** A value at row r is counted more than once exactly when some other row
      holds it too. */
  lemma CountedTwiceIffRepeated(col: seq<Value>, r: nat)
    requires r < |col|
    ensures multiset(col)[col[r]] > 1 <==>
            exists r2 :: 0 <= r2 < |col| && r2 != r && col[r2] == col[r]
  {
    var v := col[r];
    var pre, post := col[..r], col[r + 1..];
    assert col == pre + [v] + post;
    assert multiset(col)[v] == multiset(pre)[v] + 1 + multiset(post)[v];
    if multiset(col)[v] > 1 {
      if v in pre {
        var i :| 0 <= i < |pre| && pre[i] == v;
        assert col[i] == v;
      } else {
        assert v in multiset(post);
        var i :| 0 <= i < |post| && post[i] == v;
        assert col[r + 1 + i] == v;
      }
    }
    if exists r2 :: 0 <= r2 < |col| && r2 != r && col[r2] == v {
      var r2 :| 0 <= r2 < |col| && r2 != r && col[r2] == v;
      if r2 < r {
        assert pre[r2] == v;
        assert v in multiset(pre);
      } else {
        assert post[r2 - r - 1] == v;
        assert v in multiset(post);
      }
    }
  }

  /** The counting pass decides duplicates exactly as the reference definition does. */
  lemma IsDuplicateIffDuplicated(g: Table, r: nat, c: int)
    requires r < |g|
    ensures IsDuplicate(ColumnOf(g, c)[r], Counts(ColumnOf(g, c))) <==> Duplicated(g, r, c)
  {
    var col := ColumnOf(g, c);
    CountedTwiceIffRepeated(col, r);
    if exists r2 :: 0 <= r2 < |col| && r2 != r && col[r2] == col[r] {
      var r2 :| 0 <= r2 < |col| && r2 != r && col[r2] == col[r];
      assert CellAt(g, r2, c) == CellAt(g, r, c);
    }
    if Duplicated(g, r, c) {
      var r2 :| 0 <= r2 < |g| && r2 != r && CellAt(g, r2, c) == CellAt(g, r, c);
      assert col[r2] == col[r];
    }
  }

  // ---------------------------------------------------------------------------
  // The annotator meets the reference definition
  // ---------------------------------------------------------------------------

  /** One column pass leaves every cell as the reference definition says. */
  lemma AnnotateColumnSpec(g: Table, c: int, m: Meta)
    ensures Annotated(g, [c], m, AnnotateColumn(g, c, m).meta)
  {
    var s := AnnotateColumn(g, c, m);
    forall k
      ensures Get(s.meta, k) == Expected(g, [c], m, k)
    {
      if k.1 == c && 0 <= k.0 < |g| {
        IsDuplicateIffDuplicated(g, k.0, c);
      }
    }
  }

  /** Annotating the columns in order leaves every cell as the reference
      definition says, whatever the columns and however often one recurs. */
  lemma {:induction false} AnnotateColumnsSpec(g: Table, cols: seq<int>, m: Meta)
    ensures Annotated(g, cols, m, AnnotateColumns(g, cols, m).meta)
    decreases |cols|
  {
    if cols != [] {
      var c := cols[0];
      var first := AnnotateColumn(g, c, m);
      AnnotateColumnSpec(g, c, m);
      AnnotateColumnsSpec(g, cols[1..], first.meta);
      var s := AnnotateColumns(g, cols, m);
      forall k
        ensures Get(s.meta, k) == Expected(g, cols, m, k)
      {
        assert Get(s.meta, k) == Expected(g, cols[1..], first.meta, k);
        assert Get(first.meta, k) == Expected(g, [c], m, k);
        assert k.1 in cols <==> k.1 == c || k.1 in cols[1..];
      }
    }
  }

  /** The result of the annotator on grid data `g` and metadata `m`. */
  lemma CheckSpec(g: Table, m: Meta)
    ensures Annotated(g, WatchedColumns, m, CheckForDuplicates(Some(Host(g, m))).value.meta)
  {
    AnnotateColumnsSpec(g, WatchedColumns, m);
  }

  /** After the annotator runs, a watched cell carries the marker exactly when
      its value is truthy and some other row of its column holds the same value. */
  lemma MarkedIffDuplicated(g: Table, m: Meta, r: nat, c: int)
    requires r < |g| && c in WatchedColumns
    ensures Get(CheckForDuplicates(Some(Host(g, m))).value.meta, (r, c)) == Some(Marker)
            <==> Duplicated(g, r, c)
  {
    CheckSpec(g, m);
    assert Get(CheckForDuplicates(Some(Host(g, m))).value.meta, (r, c))
        == Expected(g, WatchedColumns, m, (r, c));
  }

  /** A cell whose value is falsy never carries the marker afterwards, however
      many rows share that value. */
  lemma FalsyNeverMarked(g: Table, m: Meta, r: nat, c: int)
    requires r < |g| && c in WatchedColumns
    requires !Truthy(CellAt(g, r, c))
    ensures Get(CheckForDuplicates(Some(Host(g, m))).value.meta, (r, c)) != Some(Marker)
  {
    MarkedIffDuplicated(g, m, r, c);
  }

  /** Marking is symmetric: when two rows of a watched column hold the same
      truthy value, both carry the marker afterwards, the first included. */
  lemma AllOccurrencesMarked(g: Table, m: Meta, r1: nat, r2: nat, c: int)
    requires r1 < |g| && r2 < |g| && r1 != r2 && c in WatchedColumns
    requires Truthy(CellAt(g, r1, c)) && CellAt(g, r1, c) == CellAt(g, r2, c)
    ensures Get(CheckForDuplicates(Some(Host(g, m))).value.meta, (r1, c)) == Some(Marker)
    ensures Get(CheckForDuplicates(Some(Host(g, m))).value.meta, (r2, c)) == Some(Marker)
  {
    MarkedIffDuplicated(g, m, r1, c);
    MarkedIffDuplicated(g, m, r2, c);
  }

  /** The metadata of cells outside the watched columns, and of rows the grid
      does not have, is left as it was. */
  lemma OnlyWatchedCellsTouched(g: Table, m: Meta, k: Cell)
    requires k.1 !in WatchedColumns || !(0 <= k.0 < |g|)
    ensures Get(CheckForDuplicates(Some(Host(g, m))).value.meta, k) == Get(m, k)
  {
    CheckSpec(g, m);
    assert Get(CheckForDuplicates(Some(Host(g, m))).value.meta, k)
        == Expected(g, WatchedColumns, m, k);
  }

  /** Only the marker is ever removed: a watched cell that is not a duplicate
      keeps any other className it had. A duplicate gets the marker in place of
      whatever it had, so that earlier className does not come back when the
      cell is later unmarked. */
  lemma OtherClassNamesKept(g: Table, m: Meta, r: nat, c: int)
    requires r < |g| && c in WatchedColumns
    ensures var after := Get(CheckForDuplicates(Some(Host(g, m))).value.meta, (r, c));
            && (!Duplicated(g, r, c) && Get(m, (r, c)) != Some(Marker) ==> after == Get(m, (r, c)))
            && (!Duplicated(g, r, c) && Get(m, (r, c)) == Some(Marker) ==> after == None)
            && (Duplicated(g, r, c) ==> after == Some(Marker))
  {
    CheckSpec(g, m);
    assert Get(CheckForDuplicates(Some(Host(g, m))).value.meta, (r, c))
        == Expected(g, WatchedColumns, m, (r, c));
  }

  /** The order in which columns are processed does not matter: any two column
      lists with the same members yield the same metadata. */
  lemma ColumnOrderIrrelevant(g: Table, cols1: seq<int>, cols2: seq<int>, m: Meta)
    requires forall c :: c in cols1 <==> c in cols2
    ensures AnnotateColumns(g, cols1, m).meta == AnnotateColumns(g, cols2, m).meta
  {
    var m1 := AnnotateColumns(g, cols1, m).meta;
    var m2 := AnnotateColumns(g, cols2, m).meta;
    AnnotateColumnsSpec(g, cols1, m);
    AnnotateColumnsSpec(g, cols2, m);
    forall k
      ensures Get(m1, k) == Get(m2, k)
    {
      assert Get(m1, k) == Expected(g, cols1, m, k);
      assert Get(m2, k) == Expected(g, cols2, m, k);
    }
    MetaExtensional(m1, m2);
  }

  // ---------------------------------------------------------------------------
  // The writes
  // ---------------------------------------------------------------------------

  /** Performing the recorded writes on the starting metadata yields exactly
      the metadata a column pass computes. */
  lemma {:induction false} MarkRowsReplay(col: seq<Value>, counts: map<Value, nat>, c: int, n: nat, m: Meta)
    requires n <= |col|
    ensures ApplyWrites(m, MarkRows(col, counts, c, n, m).writes) == MarkRows(col, counts, c, n, m).meta
    decreases n
  {
    if n > 0 {
      var prev := MarkRows(col, counts, c, n - 1, m);
      MarkRowsReplay(col, counts, c, n - 1, m);
      var last := UpdateCell(prev.meta, (n - 1, c), IsDuplicate(col[n - 1], counts));
      ApplyWritesAppend(m, prev.writes, last.writes);
    }
  }

  /** Performing the recorded writes on the starting metadata yields exactly
      the metadata the annotator computes. */
  lemma {:induction false} AnnotateColumnsReplay(g: Table, cols: seq<int>, m: Meta)
    ensures ApplyWrites(m, AnnotateColumns(g, cols, m).writes) == AnnotateColumns(g, cols, m).meta
    decreases |cols|
  {
    if cols != [] {
      var first := AnnotateColumn(g, cols[0], m);
      var col := ColumnOf(g, cols[0]);
      MarkRowsReplay(col, Counts(col), cols[0], |col|, m);
      AnnotateColumnsReplay(g, cols[1..], first.meta);
      ApplyWritesAppend(m, first.writes, AnnotateColumns(g, cols[1..], first.meta).writes);
    }
  }

  /** A column pass over cells already in their target state writes nothing. */
  lemma {:induction false} MarkRowsQuiet(col: seq<Value>, counts: map<Value, nat>, c: int, n: nat, m: Meta)
    requires n <= |col|
    requires forall r :: 0 <= r < n ==> Target(IsDuplicate(col[r], counts), Get(m, (r, c))) == Get(m, (r, c))
    ensures MarkRows(col, counts, c, n, m) == Step(m, [])
    decreases n
  {
    if n > 0 {
      MarkRowsQuiet(col, counts, c, n - 1, m);
      assert Target(IsDuplicate(col[n - 1], counts), Get(m, (n - 1, c))) == Get(m, (n - 1, c));
    }
  }

  /** Annotating metadata that is already annotated writes nothing and changes nothing. */
  lemma {:induction false} AnnotateColumnsQuiet(g: Table, cols: seq<int>, m: Meta)
    requires forall k :: Expected(g, cols, m, k) == Get(m, k)
    ensures AnnotateColumns(g, cols, m) == Step(m, [])
    decreases |cols|
  {
    if cols != [] {
      var c := cols[0];
      var col := ColumnOf(g, c);
      forall r | 0 <= r < |col|
        ensures Target(IsDuplicate(col[r], Counts(col)), Get(m, (r, c))) == Get(m, (r, c))
      {
        IsDuplicateIffDuplicated(g, r, c);
        assert Expected(g, cols, m, (r, c)) == Get(m, (r, c));
      }
      MarkRowsQuiet(col, Counts(col), c, |col|, m);
      forall k
        ensures Expected(g, cols[1..], m, k) == Get(m, k)
      {
        assert Expected(g, cols, m, k) == Get(m, k);
        assert k.1 in cols[1..] ==> k.1 in cols;
      }
      AnnotateColumnsQuiet(g, cols[1..], m);
    }
  }

  /** Idempotence: running the annotator again on unchanged data performs no
      writes and leaves the metadata exactly as the first run left it. */
  lemma Idempotent(g: Table, m: Meta)
    ensures var m1 := CheckForDuplicates(Some(Host(g, m))).value.meta;
            CheckForDuplicates(Some(Host(g, m1))) == Some(Step(m1, []))
  {
    var m1 := CheckForDuplicates(Some(Host(g, m))).value.meta;
    CheckSpec(g, m);
    forall k
      ensures Expected(g, WatchedColumns, m1, k) == Get(m1, k)
    {
      assert Get(m1, k) == Expected(g, WatchedColumns, m, k);
    }
    AnnotateColumnsQuiet(g, WatchedColumns, m1);
  }

  /** The columns of `cols` are pairwise different. */
  predicate NoRepeats(cols: seq<int>) {
    forall i, j :: 0 <= i < j < |cols| ==> cols[i] != cols[j]
  }

  /** No cell is written twice. */
  predicate DistinctCells(ws: seq<Write>) {
    forall i, j :: 0 <= i < j < |ws| ==> ws[i].cell != ws[j].cell
  }

  /** The writes go to strictly increasing rows. */
  predicate RowsIncreasing(ws: seq<Write>) {
    forall i, j :: 0 <= i < j < |ws| ==> ws[i].cell.0 < ws[j].cell.0
  }

  /** Write `w` changes metadata `m`: the marker is set only where it is
      absent, and a className is removed only where it is the marker. */
  predicate Changes(m: Meta, w: Write) {
    match w
    case SetMarker(k) => Get(m, k) != Some(Marker)
    case RemoveClassName(k) => Get(m, k) == Some(Marker)
  }

  /** Every write the annotator performs is to a watched cell of a row the grid
      has, sets the marker only on a duplicate, and removes a className only
      from a non-duplicate. When no column is listed twice, moreover, every
      write changes the starting metadata and no cell is written twice. */
  lemma {:induction false} WritesJustified(g: Table, cols: seq<int>, m: Meta)
    ensures forall w :: w in AnnotateColumns(g, cols, m).writes ==>
      && w.cell.1 in cols && 0 <= w.cell.0 < |g|
      && (w.SetMarker? ==> Duplicated(g, w.cell.0, w.cell.1))
      && (w.RemoveClassName? ==> !Duplicated(g, w.cell.0, w.cell.1))
    ensures NoRepeats(cols) ==>
      forall w :: w in AnnotateColumns(g, cols, m).writes ==> Changes(m, w)
    ensures NoRepeats(cols) ==> DistinctCells(AnnotateColumns(g, cols, m).writes)
    decreases |cols|
  {
    if cols != [] {
      var c := cols[0];
      var col := ColumnOf(g, c);
      var first := AnnotateColumn(g, c, m);
      var rest := AnnotateColumns(g, cols[1..], first.meta);
      MarkRowsWrites(col, Counts(col), c, |col|, m);
      forall w | w in first.writes
        ensures w.cell.1 == c && 0 <= w.cell.0 < |g|
        ensures w.SetMarker? ==> Duplicated(g, w.cell.0, w.cell.1)
        ensures w.RemoveClassName? ==> !Duplicated(g, w.cell.0, w.cell.1)
      {
        IsDuplicateIffDuplicated(g, w.cell.0, c);
      }
      WritesJustified(g, cols[1..], first.meta);
      if NoRepeats(cols) {
        assert NoRepeats(cols[1..]) by {
          forall i, j | 0 <= i < j < |cols[1..]|
            ensures cols[1..][i] != cols[1..][j]
          {
            assert cols[1..][i] == cols[i + 1] && cols[1..][j] == cols[j + 1];
          }
        }
        forall w | w in rest.writes
          ensures w.cell.1 != c && Changes(m, w)
        {
          var i :| 0 <= i < |cols[1..]| && cols[1..][i] == w.cell.1;
          assert cols[i + 1] == w.cell.1;
          assert Get(first.meta, w.cell) == Get(m, w.cell);
        }
        var ws := first.writes + rest.writes;
        assert RowsIncreasing(first.writes);
        assert DistinctCells(rest.writes);
        forall i, j | 0 <= i < j < |ws|
          ensures ws[i].cell != ws[j].cell
        {
          if j < |first.writes| {
            assert ws[i] == first.writes[i] && ws[j] == first.writes[j];
          } else if i >= |first.writes| {
            assert ws[i] == rest.writes[i - |first.writes|];
            assert ws[j] == rest.writes[j - |first.writes|];
          } else {
            assert ws[i] in first.writes;
            assert ws[j] in rest.writes;
          }
        }
      }
    }
  }

  /** The annotator writes only where the metadata has to change: it sets the
      marker only on a duplicate that lacked it, removes a className only from
      a non-duplicate that carried the marker, and writes each cell at most once. */
  lemma WritesOnlyWhereNeeded(g: Table, m: Meta)
    ensures forall w :: w in CheckForDuplicates(Some(Host(g, m))).value.writes ==>
      && w.cell.1 in WatchedColumns && 0 <= w.cell.0 < |g|
      && (w.SetMarker? ==> Duplicated(g, w.cell.0, w.cell.1) && Get(m, w.cell) != Some(Marker))
      && (w.RemoveClassName? ==> !Duplicated(g, w.cell.0, w.cell.1) && Get(m, w.cell) == Some(Marker))
    ensures DistinctCells(CheckForDuplicates(Some(Host(g, m))).value.writes)
  {
    var ws := AnnotateColumns(g, WatchedColumns, m).writes;
    assert CheckForDuplicates(Some(Host(g, m))).value.writes == ws;
    assert NoRepeats(WatchedColumns);
    WritesJustified(g, WatchedColumns, m);
    forall w | w in ws
      ensures w.SetMarker? ==> Get(m, w.cell) != Some(Marker)
      ensures w.RemoveClassName? ==> Get(m, w.cell) == Some(Marker)
    {
      assert Changes(m, w);
    }
  }

  /** The writes of a column pass, in row order: each is to one of the first n
      rows of the column, agrees with the duplicate decision for that row and
      changes the starting metadata, and the rows written strictly increase. */
  lemma {:induction false} MarkRowsWrites(col: seq<Value>, counts: map<Value, nat>, c: int, n: nat, m: Meta)
    requires n <= |col|
    ensures forall w :: w in MarkRows(col, counts, c, n, m).writes ==>
      && w.cell.1 == c && 0 <= w.cell.0 < n
      && (w.SetMarker? ==> IsDuplicate(col[w.cell.0], counts))
      && (w.RemoveClassName? ==> !IsDuplicate(col[w.cell.0], counts))
      && Changes(m, w)
    ensures RowsIncreasing(MarkRows(col, counts, c, n, m).writes)
    decreases n
  {
    if n > 0 {
      var prev := MarkRows(col, counts, c, n - 1, m);
      MarkRowsWrites(col, counts, c, n - 1, m);
      assert Get(prev.meta, (n - 1, c)) == Get(m, (n - 1, c));
      var last := UpdateCell(prev.meta, (n - 1, c), IsDuplicate(col[n - 1], counts));
      var ws := prev.writes + last.writes;
      assert RowsIncreasing(prev.writes);
      forall i, j | 0 <= i < j < |ws|
        ensures ws[i].cell.0 < ws[j].cell.0
      {
        if j < |prev.writes| {
          assert ws[i] == prev.writes[i] && ws[j] == prev.writes[j];
        } else {
          assert ws[i] in prev.writes;
          assert last.writes == [ws[j]];
        }
      }
    }
  }
}
