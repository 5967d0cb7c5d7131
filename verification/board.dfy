/** The game state of a `MineSweeper` object: the true field (`playingField`), the
    player's view (`hiddenPlayingField`) and the `youAreDead` flag; and marking. */
module Boards {
  import opened Marks
  import opened Grids

  datatype Board = Board(rows: int, cols: int, field: Grid, view: Grid, dead: bool)

  /** Both grids have the board's `rows` × `cols` shape. */
  predicate Shaped(b: Board) {
    IsGrid(b.field, b.rows, b.cols) && IsGrid(b.view, b.rows, b.cols)
  }

  /** A fresh board: both grids all '.', nobody dead. */
  function NewBoard(rows: nat, cols: nat): (b: Board)
    ensures Shaped(b) && !b.dead
  {
    Board(rows, cols, Filled(rows, cols, Unmarked), Filled(rows, cols, Unmarked), false)
  }

  /** `fieldIsNumber`: whether the chosen grid (the view when `hiddenField`) shows a digit. */
  function FieldIsNumber(b: Board, p: Cell, hiddenField: bool): (r: bool)
    requires Shaped(b) && InBounds(b.rows, b.cols, p)
    ensures hiddenField ==> (r <==> '1' <= At(b.view, p) <= '8')
    ensures !hiddenField ==> (r <==> '1' <= At(b.field, p) <= '8')
  {
    IsNumber(if hiddenField then At(b.view, p) else At(b.field, p))
  }

  /** The player sees cell `c` as settled: explored empty, or showing its true digit. */
  predicate Revealed(b: Board, c: Cell)
    requires Shaped(b) && InBounds(b.rows, b.cols, c)
  {
    At(b.view, c) == Explored || (IsNumber(At(b.field, c)) && At(b.view, c) == At(b.field, c))
  }

  /** Every in-grid neighbour of `c` is revealed. */
  ghost predicate Settled(b: Board, c: Cell)
    requires Shaped(b)
  {
    forall q :: Adjacent(b.rows, b.cols, c, q) ==> Revealed(b, q)
  }

  /** A cell the view shows as explored is explored in the true field too. */
  ghost predicate Consistent(b: Board)
    requires Shaped(b)
  {
    forall c :: InBounds(b.rows, b.cols, c) && At(b.view, c) == Explored ==> At(b.field, c) == Explored
  }

  /** The view never shows a mine. */
  ghost predicate ViewHidesMines(b: Board)
    requires Shaped(b)
  {
    forall c :: InBounds(b.rows, b.cols, c) ==> At(b.view, c) != Mine
  }

  /** `markCell`: refused (false, nothing changes) on a cell whose view shows a digit;
      otherwise only that view cell changes, '.' to '*' and anything else to '.'. */
  function MarkCell(b: Board, p: Cell): (res: (Board, bool))
    requires Shaped(b) && InBounds(b.rows, b.cols, p)
    ensures res.1 <==> !IsNumber(At(b.view, p))
    ensures !res.1 ==> res.0 == b
    ensures Shaped(res.0)
    ensures res.0.rows == b.rows && res.0.cols == b.cols && res.0.field == b.field && res.0.dead == b.dead
    ensures forall c :: InBounds(b.rows, b.cols, c) && c != p ==> At(res.0.view, c) == At(b.view, c)
    ensures res.1 ==> (At(res.0.view, p) == Marked <==> At(b.view, p) == Unmarked)
    ensures res.1 ==> (At(res.0.view, p) != Marked ==> At(res.0.view, p) == Unmarked)
  {
    if FieldIsNumber(b, p, true) then
      (b, false)
    else if At(b.view, p) == Unmarked then
      (b.(view := Put(b.view, b.rows, b.cols, p, Marked)), true)
    else
      (b.(view := Put(b.view, b.rows, b.cols, p, Unmarked)), true)
  }

  /** Toggling a cell that is unmarked or marked twice restores the board. */
  lemma MarkTwiceRestores(b: Board, p: Cell)
    requires Shaped(b) && InBounds(b.rows, b.cols, p)
    requires At(b.view, p) == Unmarked || At(b.view, p) == Marked
    ensures MarkCell(b, p).1 && MarkCell(MarkCell(b, p).0, p).1
    ensures MarkCell(MarkCell(b, p).0, p).0 == b
  {
    var b1 := MarkCell(b, p).0;
    var b2 := MarkCell(b1, p).0;
    assert At(b2.view, p) == At(b.view, p);
    assert b2.view == b.view by {
      forall y | 0 <= y < b.rows ensures b2.view[y] == b.view[y] {
        forall x | 0 <= x < b.cols ensures b2.view[y][x] == b.view[y][x] {
          assert At(b2.view, Cell(y, x)) == At(b.view, Cell(y, x));
        }
      }
    }
  }

  /** Marking keeps the view free of mines and keeps it consistent with the true field
      (an explored cell it toggles stops being explored in the view). */
  lemma MarkKeepsInvariants(b: Board, p: Cell)
    requires Shaped(b) && InBounds(b.rows, b.cols, p)
    requires Consistent(b) && ViewHidesMines(b)
    ensures Consistent(MarkCell(b, p).0) && ViewHidesMines(MarkCell(b, p).0)
  {
  }

  /** As written, marking an explored empty cell hides it again: its view goes back to '.'
      although its true field stays '/'. */
  lemma MarkUnexplores(b: Board, p: Cell)
    requires Shaped(b) && InBounds(b.rows, b.cols, p)
    requires Consistent(b) && At(b.view, p) == Explored
    ensures MarkCell(b, p).1
    ensures At(MarkCell(b, p).0.view, p) == Unmarked && At(MarkCell(b, p).0.field, p) == Explored
  {
  }
}
