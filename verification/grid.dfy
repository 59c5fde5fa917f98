/** The grid's data as the annotator sees it: rows of JavaScript cell values. */
module Grid {

  /** A cell value, with every JavaScript falsy case a value of its own:
      `undefined`, `null`, `false`, `0` (and `-0`, the same real), `NaN`
      and the empty string. */
  datatype Value =
    | Undefined
    | Null
    | Bool(b: bool)
    | Num(x: real)
    | NaN
    | Str(s: string)

  /** JavaScript truthiness: the test `if (val)` applies. */
  predicate Truthy(v: Value) {
    match v
    case Undefined => false
    case Null => false
    case Bool(b) => b
    case Num(x) => x != 0.0
    case NaN => false
    case Str(s) => s != ""
  }

  /** Ordered rows, each an ordered sequence of cell values. */
  type Table = seq<seq<Value>>

  /** The value in row `r`, column `c`; a column past the end of a row reads as
      `undefined`. */
  function CellAt(g: Table, r: nat, c: int): Value
    requires r < |g|
  {
    if 0 <= c < |g[r]| then g[r][c] else Undefined
  }

  /** The column `c` read top to bottom, one value per row, as the grid's
      column accessor returns it. */
  function ColumnOf(g: Table, c: int): (col: seq<Value>)
    ensures |col| == |g|
    ensures forall r :: 0 <= r < |g| ==> col[r] == CellAt(g, r, c)
  {
    seq(|g|, r requires 0 <= r < |g| => CellAt(g, r, c))
  }
}
