/** The saved column-width vector: loading it from the stored text at startup,
    and updating one entry when a column is resized. */
module ColumnWidths {
  import opened Options

  /** Widths by column position; None is a position no resize has set (a hole
      of the JavaScript array, written back as `null`). */
  type WidthVector = seq<Option<int>>

  /** The stored texts that stand for "no saved widths": the empty string
      (falsy) and the strings left by storing `undefined` or `null`. */
  predicate IsSentinel(saved: string) {
    saved == "" || saved == "undefined" || saved == "null"
  }

  /** The width vector restored at startup from the stored text `saved`
      (None when nothing is stored). `parse` stands for the JSON parser: None
      where it throws. Every failure yields the empty vector. */
  function LoadWidths(saved: Option<string>, parse: string -> Option<WidthVector>): (r: WidthVector)
    ensures saved.None? || IsSentinel(saved.value) ==> r == []
    ensures r == [] || (saved.Some? && !IsSentinel(saved.value) && parse(saved.value) == Some(r))
    ensures saved.Some? && !IsSentinel(saved.value) && parse(saved.value).Some? ==>
      r == parse(saved.value).value
    ensures saved.Some? && parse(saved.value).None? ==> r == []
  {
    match saved
    case None => []
    case Some(text) =>
      if IsSentinel(text) then []
      else match parse(text)
        case None => []
        case Some(w) => w
  }

  /** The vector after column k is resized to `size`: a copy with entry k set,
      grown with holes when k lies beyond its end. */
  function SetWidth(w: WidthVector, k: nat, size: int): (r: WidthVector)
    ensures |r| == if k < |w| then |w| else k + 1
    ensures r[k] == Some(size)
    ensures forall i :: 0 <= i < |w| && i != k ==> r[i] == w[i]
    ensures forall i :: |w| <= i < |r| && i != k ==> r[i] == None
  {
    if k < |w| then w[k := Some(size)]
    else w + seq(k - |w|, _ => None) + [Some(size)]
  }

  /** Loading never fails: absent storage, a sentinel text and unparsable text
      all give the empty vector. */
  lemma LoadRecovers(saved: Option<string>, parse: string -> Option<WidthVector>)
    requires saved.None? || IsSentinel(saved.value) || parse(saved.value).None?
    ensures LoadWidths(saved, parse) == []
  {
  }

  /** Text that parses and is not a sentinel loads as exactly what it parses to. */
  lemma LoadParsed(saved: string, parse: string -> Option<WidthVector>)
    requires !IsSentinel(saved) && parse(saved).Some?
    ensures LoadWidths(Some(saved), parse) == parse(saved).value
  {
  }

  /** Resizing a column twice keeps only the second size. */
  lemma SetWidthLastWins(w: WidthVector, k: nat, s1: int, s2: int)
    ensures SetWidth(SetWidth(w, k, s1), k, s2) == SetWidth(w, k, s2)
  {
    var a := SetWidth(SetWidth(w, k, s1), k, s2);
    var b := SetWidth(w, k, s2);
    assert |a| == |b|;
    forall i | 0 <= i < |a|
      ensures a[i] == b[i]
    {
    }
  }

  /** Resizing two different columns gives the same vector in either order. */
  lemma SetWidthCommutes(w: WidthVector, j: nat, k: nat, sj: int, sk: int)
    requires j != k
    ensures SetWidth(SetWidth(w, j, sj), k, sk) == SetWidth(SetWidth(w, k, sk), j, sj)
  {
    var a := SetWidth(SetWidth(w, j, sj), k, sk);
    var b := SetWidth(SetWidth(w, k, sk), j, sj);
    assert |a| == |b|;
    forall i | 0 <= i < |a|
      ensures a[i] == b[i]
    {
    }
  }
}
