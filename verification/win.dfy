/** The win check (`checkIfAllMarked`): compare the true field and the view cell by cell. */
module WinCheck {
  import opened Marks
  import opened Grids
  import opened Boards

  /** The two grids disagree at `c`. */
  predicate Differs(b: Board, c: Cell)
    requires Shaped(b) && InBounds(b.rows, b.cols, c)
  {
    At(b.field, c) != At(b.view, c)
  }

  /** `c` is a mine the player has marked. */
  predicate MarkedMine(b: Board, c: Cell)
    requires Shaped(b) && InBounds(b.rows, b.cols, c)
  {
    At(b.field, c) == Mine && At(b.view, c) == Marked
  }

  /** Every disagreement between the grids is a marked mine. */
  ghost predicate AllDiscrepanciesMarked(b: Board)
    requires Shaped(b)
  {
    forall c :: InBounds(b.rows, b.cols, c) && Differs(b, c) ==> MarkedMine(b, c)
  }

  /** What `checkIfAllMarked` accepts: some disagreement, and every disagreement a marked mine. */
  ghost predicate Won(b: Board)
    requires Shaped(b)
  {
    && (exists c :: InBounds(b.rows, b.cols, c) && Differs(b, c))
    && AllDiscrepanciesMarked(b)
  }

  /** `checkIfAllMarked`: `isDone` only becomes true at a disagreeing cell, and the scan
      stops with false at the first disagreement that is not a marked mine. */
  method CheckIfAllMarked(b: Board) returns (isDone: bool)
    requires Shaped(b)
    ensures isDone <==> Won(b)
  {
    isDone := false;
    var r := 0;
    while r < b.rows
      invariant 0 <= r <= b.rows
      invariant forall c :: InBounds(b.rows, b.cols, c) && c.y < r && Differs(b, c) ==> MarkedMine(b, c)
      invariant isDone <==> exists c :: InBounds(b.rows, b.cols, c) && c.y < r && Differs(b, c)
    {
      var col := 0;
      while col < b.cols
        invariant 0 <= col <= b.cols
        invariant forall c :: InBounds(b.rows, b.cols, c) && (c.y < r || (c.y == r && c.x < col)) && Differs(b, c) ==>
          MarkedMine(b, c)
        invariant isDone <==> exists c :: InBounds(b.rows, b.cols, c) && (c.y < r || (c.y == r && c.x < col)) && Differs(b, c)
      {
        var here := Cell(r, col);
        var pValue := b.field[r][col];
        var hValue := b.view[r][col];
        assert pValue == At(b.field, here) && hValue == At(b.view, here);
        if pValue != hValue {
          isDone := pValue == Mine && hValue == Marked;
          if !isDone {
            assert Differs(b, here) && !MarkedMine(b, here);
            return false;
          }
          assert Differs(b, here);
        }
        col := col + 1;
      }
      r := r + 1;
    }
  }

  /** While the view never shows a mine, the check succeeds exactly when the field holds at
      least one mine, every mine is marked, and every other cell shows its true content. */
  lemma WonMeansExactlyMinesMarked(b: Board)
    requires Shaped(b) && ViewHidesMines(b)
    ensures Won(b) <==>
      && (exists c :: InBounds(b.rows, b.cols, c) && At(b.field, c) == Mine)
      && (forall c :: InBounds(b.rows, b.cols, c) && At(b.field, c) == Mine ==> At(b.view, c) == Marked)
      && (forall c :: InBounds(b.rows, b.cols, c) && At(b.field, c) != Mine ==> At(b.view, c) == At(b.field, c))
  {
  }

  /** As written the check can never succeed on a field without mines: with no disagreement
      left it returns false, although every disagreement (there is none) is a marked mine. */
  lemma NoMinesNeverWon(b: Board)
    requires Shaped(b) && ViewHidesMines(b)
    requires forall c :: InBounds(b.rows, b.cols, c) ==> At(b.field, c) != Mine
    ensures !Won(b)
    ensures (forall c :: InBounds(b.rows, b.cols, c) ==> At(b.view, c) == At(b.field, c)) ==> AllDiscrepanciesMarked(b)
  {
  }
}
