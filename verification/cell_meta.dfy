/** Per-cell display metadata as far as the annotator uses it: each cell's own
    `className`, and the writes that change it. */
module CellMeta {
  import opened Options

  /** A cell position: (row, column). */
  type Cell = (int, int)

  /** The className each cell carries of its own; a cell not in the map has none. */
  type Meta = map<Cell, string>

  /** The className that marks a duplicate cell. */
  const Marker: string := "duplicate-cell"

  /** The className of cell `k`, if it has one. */
  function Get(m: Meta, k: Cell): Option<string> {
    if k in m then Some(m[k]) else None
  }

  /** One write to the grid's cell metadata: setting a cell's className to the
      marker, or removing a cell's className. */
  datatype Write =
    | SetMarker(cell: Cell)
    | RemoveClassName(cell: Cell)

  /** The metadata after performing the writes `ws` in order. */
  function ApplyWrites(m: Meta, ws: seq<Write>): Meta
    decreases |ws|
  {
    if ws == [] then m
    else
      var m1 := match ws[0]
        case SetMarker(k) => m[k := Marker]
        case RemoveClassName(k) => m - {k};
      ApplyWrites(m1, ws[1..])
  }

  /** Performing two batches of writes one after the other is performing their
      concatenation. */
  lemma {:induction false} ApplyWritesAppend(m: Meta, a: seq<Write>, b: seq<Write>)
    ensures ApplyWrites(m, a + b) == ApplyWrites(ApplyWrites(m, a), b)
    decreases |a|
  {
    if a != [] {
      assert (a + b)[0] == a[0];
      assert (a + b)[1..] == a[1..] + b;
      var m1 := match a[0]
        case SetMarker(k) => m[k := Marker]
        case RemoveClassName(k) => m - {k};
      ApplyWritesAppend(m1, a[1..], b);
    } else {
      assert a + b == b;
    }
  }

  /** Two metadata maps that agree on every cell are the same map. */
  lemma MetaExtensional(m1: Meta, m2: Meta)
    requires forall k :: Get(m1, k) == Get(m2, k)
    ensures m1 == m2
  {
    forall k | k in m1
      ensures k in m2 && m1[k] == m2[k]
    {
      assert Get(m1, k) == Get(m2, k);
    }
    forall k | k in m2
      ensures k in m1
    {
      assert Get(m1, k) == Get(m2, k);
    }
  }
}
