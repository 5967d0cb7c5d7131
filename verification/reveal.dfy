/** Exploring a cell (`exploreCell`) and the recursive flood fill (`revealField`). */
module Reveal {
  import opened Marks
  import opened Grids
  import opened Hints
  import opened Boards

  /** The neighbours `revealField` recurses into from cell `p` (column `x`, row `y`), in the
      order of its hand-unrolled top-row, bottom-row, left, right and interior cases. */
  function RevealTargets(rows: int, cols: int, p: Cell): (cs: seq<Cell>)
    requires rows >= 2 && cols >= 2 && InBounds(rows, cols, p)
    ensures ListsNeighbours(rows, cols, p, cs)
    ensures |cs| == Degree(rows, cols, p)
  {
    var x, y := p.x, p.y;
    if y == 0 then
      if x == 0 then
        [Cell(y, x + 1), Cell(y + 1, x + 1), Cell(y + 1, x)]
      else if x == cols - 1 then
        [Cell(y, x - 1), Cell(y + 1, x - 1), Cell(y + 1, x)]
      else
        [Cell(y, x - 1), Cell(y + 1, x - 1), Cell(y + 1, x), Cell(y + 1, x + 1), Cell(y, x + 1)]
    else if y == rows - 1 then
      if x == 0 then
        [Cell(y - 1, x), Cell(y - 1, x + 1), Cell(y, x + 1)]
      else if x == cols - 1 then
        [Cell(y, x - 1), Cell(y - 1, x - 1), Cell(y - 1, x)]
      else
        [Cell(y, x - 1), Cell(y - 1, x - 1), Cell(y - 1, x), Cell(y - 1, x + 1), Cell(y, x + 1)]
    else if x == 0 then
      [Cell(y - 1, x), Cell(y - 1, x + 1), Cell(y, x + 1), Cell(y + 1, x + 1), Cell(y + 1, x)]
    else if x == cols - 1 then
      [Cell(y - 1, x), Cell(y - 1, x - 1), Cell(y, x - 1), Cell(y + 1, x - 1), Cell(y + 1, x)]
    else
      [Cell(y - 1, x), Cell(y - 1, x - 1), Cell(y, x - 1), Cell(y + 1, x - 1),
       Cell(y + 1, x), Cell(y + 1, x + 1), Cell(y, x + 1), Cell(y - 1, x + 1)]
  }

  /** Cells the flood fill may still explore: not a digit in the true field and not
      explored in the view. Every exploring step removes one; nothing adds one. */
  function Pending(b: Board): set<Cell>
    requires Shaped(b)
  {
    set y, x | 0 <= y < b.rows && 0 <= x < b.cols && !IsNumber(b.field[y][x]) && b.view[y][x] != Explored
      :: Cell(y, x)
  }

  /** The board with cell `p` set to '/' in both grids. */
  function Explore(b: Board, p: Cell): (r: Board)
    requires Shaped(b) && InBounds(b.rows, b.cols, p)
    ensures Shaped(r) && r.rows == b.rows && r.cols == b.cols && r.dead == b.dead
  {
    b.(view := Put(b.view, b.rows, b.cols, p, Explored), field := Put(b.field, b.rows, b.cols, p, Explored))
  }

  lemma ExploreShrinksPending(b: Board, p: Cell)
    requires Shaped(b) && InBounds(b.rows, b.cols, p)
    requires !IsNumber(At(b.field, p)) && At(b.view, p) != Explored
    ensures Pending(Explore(b, p)) == Pending(b) - {p}
    ensures p in Pending(b)
    ensures |Pending(Explore(b, p))| < |Pending(b)|
  {
  }

  lemma CopyDigitKeepsPending(b: Board, p: Cell)
    requires Shaped(b) && InBounds(b.rows, b.cols, p) && IsNumber(At(b.field, p))
    ensures Pending(b.(view := Put(b.view, b.rows, b.cols, p, At(b.field, p)))) == Pending(b)
  {
  }

  /** `r` follows from `b` by revealing only: same shape and flag, no new pending cell,
      every revealed cell stays revealed, the true field changes only where a non-digit cell
      becomes '/' in both grids, and every changed view cell ends up revealed. */
  ghost predicate Advances(b: Board, r: Board)
    requires Shaped(b)
  {
    && Shaped(r) && r.rows == b.rows && r.cols == b.cols && r.dead == b.dead
    && Pending(r) <= Pending(b)
    && (forall c :: InBounds(b.rows, b.cols, c) && Revealed(b, c) ==> Revealed(r, c))
    && (forall c :: InBounds(b.rows, b.cols, c) && At(r.field, c) != At(b.field, c) ==>
          At(r.field, c) == Explored && At(r.view, c) == Explored && !IsNumber(At(b.field, c)))
    && (forall c :: InBounds(b.rows, b.cols, c) && At(r.view, c) != At(b.view, c) ==> Revealed(r, c))
    && (Consistent(b) ==> Consistent(r))
  }

  lemma AdvancesTransitive(a: Board, b: Board, c: Board)
    requires Shaped(a) && Advances(a, b) && Advances(b, c)
    ensures Advances(a, c)
  {
  }

  lemma ExploreAdvances(b: Board, p: Cell)
    requires Shaped(b) && InBounds(b.rows, b.cols, p)
    requires !IsNumber(At(b.field, p)) && At(b.view, p) != Explored
    ensures Advances(b, Explore(b, p)) && Revealed(Explore(b, p), p)
  {
  }

  lemma CopyDigitAdvances(b: Board, p: Cell)
    requires Shaped(b) && InBounds(b.rows, b.cols, p) && IsNumber(At(b.field, p))
    ensures Advances(b, b.(view := Put(b.view, b.rows, b.cols, p, At(b.field, p))))
  {
  }

  /** `revealField`: a cell whose true field is a digit has that digit copied into the view
      and nothing else changes; any other cell not yet explored in the view is set to '/'
      in both grids and the fill recurses into its in-grid neighbours. Either way the cell
      ends up revealed and the board only advances. */
  function RevealField(b: Board, p: Cell): (r: Board)
    requires Shaped(b) && b.rows >= 2 && b.cols >= 2 && InBounds(b.rows, b.cols, p)
    ensures Advances(b, r)
    ensures Revealed(r, p)
    ensures IsNumber(At(b.field, p)) ==>
      && r.field == b.field
      && At(r.view, p) == At(b.field, p)
      && forall c :: InBounds(b.rows, b.cols, c) && c != p ==> At(r.view, c) == At(b.view, c)
    decreases |Pending(b)|, 0
  {
    if FieldIsNumber(b, p, false) then
      CopyDigitAdvances(b, p);
      b.(view := Put(b.view, b.rows, b.cols, p, At(b.field, p)))
    else if At(b.view, p) != Explored then
      var b1 := Explore(b, p);
      ExploreShrinksPending(b, p);
      ExploreAdvances(b, p);
      var r := RevealAll(b1, RevealTargets(b.rows, b.cols, p));
      AdvancesTransitive(b, b1, r);
      r
    else
      b
  }

  /** The recursive calls of one `revealField` step, made one after the other: each listed
      cell ends up revealed. */
  function RevealAll(b: Board, ps: seq<Cell>): (r: Board)
    requires Shaped(b) && b.rows >= 2 && b.cols >= 2
    requires forall i :: 0 <= i < |ps| ==> InBounds(b.rows, b.cols, ps[i])
    ensures Advances(b, r)
    ensures forall i :: 0 <= i < |ps| ==> Revealed(r, ps[i])
    decreases |Pending(b)|, 1, |ps|
  {
    if |ps| == 0 then b
    else
      var b1 := RevealField(b, ps[0]);
      SubsetCard(Pending(b1), Pending(b));
      var r := RevealAll(b1, ps[1..]);
      AdvancesTransitive(b, b1, r);
      r
  }

  /** Advancing never un-reveals, so a settled cell stays settled. */
  lemma AdvancesKeepsSettled(b: Board, r: Board, c: Cell)
    requires Shaped(b) && Advances(b, r) && Settled(b, c)
    ensures Settled(r, c)
  {
  }

  /** Every cell the fill newly explores ends with all its in-grid neighbours revealed:
      the fill does not stop at an explored empty cell before its whole surrounding is shown. */
  lemma {:induction false} RevealFieldSettles(b: Board, p: Cell)
    requires Shaped(b) && b.rows >= 2 && b.cols >= 2 && InBounds(b.rows, b.cols, p)
    ensures var r := RevealField(b, p);
      forall c :: InBounds(b.rows, b.cols, c) && At(r.view, c) == Explored && At(b.view, c) != Explored ==>
        Settled(r, c)
    decreases |Pending(b)|, 0
  {
    var r := RevealField(b, p);
    if FieldIsNumber(b, p, false) {
    } else if At(b.view, p) != Explored {
      var b1 := Explore(b, p);
      ExploreShrinksPending(b, p);
      var ts := RevealTargets(b.rows, b.cols, p);
      assert r == RevealAll(b1, ts);
      RevealAllSettles(b1, ts);
      forall c | InBounds(b.rows, b.cols, c) && At(r.view, c) == Explored && At(b.view, c) != Explored
        ensures Settled(r, c)
      {
        if c == p {
          forall q | Adjacent(b.rows, b.cols, p, q) ensures Revealed(r, q) {
            var i :| 0 <= i < |ts| && ts[i] == q;
          }
        } else {
          assert At(b1.view, c) == At(b.view, c);
        }
      }
    }
  }

  lemma {:induction false} RevealAllSettles(b: Board, ps: seq<Cell>)
    requires Shaped(b) && b.rows >= 2 && b.cols >= 2
    requires forall i :: 0 <= i < |ps| ==> InBounds(b.rows, b.cols, ps[i])
    ensures var r := RevealAll(b, ps);
      forall c :: InBounds(b.rows, b.cols, c) && At(r.view, c) == Explored && At(b.view, c) != Explored ==>
        Settled(r, c)
    decreases |Pending(b)|, 1, |ps|
  {
    if |ps| > 0 {
      var b1 := RevealField(b, ps[0]);
      SubsetCard(Pending(b1), Pending(b));
      var r := RevealAll(b1, ps[1..]);
      RevealFieldSettles(b, ps[0]);
      RevealAllSettles(b1, ps[1..]);
      forall c | InBounds(b.rows, b.cols, c) && At(r.view, c) == Explored && At(b.view, c) != Explored
        ensures Settled(r, c)
      {
        if At(b1.view, c) == Explored {
          AdvancesKeepsSettled(b1, r, c);
        }
      }
    }
  }

  /** Every listed cell is in the grid and holds no mine in the true field. */
  ghost predicate MineFreeTargets(b: Board, ps: seq<Cell>)
    requires Shaped(b)
  {
    forall i :: 0 <= i < |ps| ==> InBounds(b.rows, b.cols, ps[i]) && At(b.field, ps[i]) != Mine
  }

  /** The fill from `b` to `r` left the mines where they were, did not touch the view of a
      mine cell, and kept zero-hint cells mine-free around. */
  ghost predicate SafeFill(b: Board, r: Board)
    requires Shaped(b) && Shaped(r) && r.rows == b.rows && r.cols == b.cols
  {
    && SameMines(b.field, r.field, b.rows, b.cols)
    && ZeroCellsMineFree(r.field, b.rows, b.cols)
    && forall c :: InBounds(b.rows, b.cols, c) && At(b.field, c) == Mine ==> At(r.view, c) == At(b.view, c)
  }

  lemma SafeFillTransitive(a: Board, b: Board, c: Board)
    requires Shaped(a) && Shaped(b) && Shaped(c)
    requires b.rows == a.rows && b.cols == a.cols && c.rows == a.rows && c.cols == a.cols
    requires SafeFill(a, b) && SafeFill(b, c)
    ensures SafeFill(a, c)
  {
  }

  /** Starting on a cell without a mine in a field where every zero-hint cell is mine-free
      around, the fill never writes a mine cell of either grid, and the field keeps both
      properties. */
  lemma {:induction false} RevealFieldSafe(b: Board, p: Cell)
    requires Shaped(b) && b.rows >= 2 && b.cols >= 2 && InBounds(b.rows, b.cols, p)
    requires ZeroCellsMineFree(b.field, b.rows, b.cols) && At(b.field, p) != Mine
    ensures SafeFill(b, RevealField(b, p))
    decreases |Pending(b)|, 0
  {
    var r := RevealField(b, p);
    if FieldIsNumber(b, p, false) {
      assert r.field == b.field;
    } else if At(b.view, p) != Explored {
      var b1 := Explore(b, p);
      ExploreShrinksPending(b, p);
      ExploreAdvances(b, p);
      var ts := RevealTargets(b.rows, b.cols, p);
      assert r == RevealAll(b1, ts);
      forall i | 0 <= i < |ts| ensures At(b1.field, ts[i]) != Mine {
        assert Adjacent(b.rows, b.cols, p, ts[i]);
      }
      assert SameMines(b.field, b1.field, b.rows, b.cols);
      SafeStepKeepsZeroCells(b, b1);
      assert SafeFill(b, b1);
      RevealAllSafe(b1, ts);
      SafeFillTransitive(b, b1, r);
    } else {
      assert r == b;
    }
  }

  lemma {:induction false} RevealAllSafe(b: Board, ps: seq<Cell>)
    requires Shaped(b) && b.rows >= 2 && b.cols >= 2
    requires ZeroCellsMineFree(b.field, b.rows, b.cols)
    requires MineFreeTargets(b, ps)
    ensures SafeFill(b, RevealAll(b, ps))
    decreases |Pending(b)|, 1, |ps|
  {
    if |ps| == 0 {
      assert RevealAll(b, ps) == b;
    } else {
      var b1 := RevealField(b, ps[0]);
      SubsetCard(Pending(b1), Pending(b));
      var r := RevealAll(b1, ps[1..]);
      RevealFieldSafe(b, ps[0]);
      forall i | 0 <= i < |ps[1..]| ensures At(b1.field, ps[1..][i]) != Mine {
        assert ps[1..][i] == ps[i + 1];
      }
      RevealAllSafe(b1, ps[1..]);
      SafeFillTransitive(b, b1, r);
    }
  }

  /** A change of the field that keeps the mines and only turns non-digit cells into '/'
      keeps zero-hint cells mine-free around. */
  lemma SafeStepKeepsZeroCells(b: Board, r: Board)
    requires Shaped(b) && Advances(b, r)
    requires ZeroCellsMineFree(b.field, b.rows, b.cols)
    requires SameMines(b.field, r.field, b.rows, b.cols)
    ensures ZeroCellsMineFree(r.field, b.rows, b.cols)
  {
  }

  /** `exploreCell`: on a mine the player dies and neither grid changes (false); on any
      other cell the fill runs from it (true), leaving it revealed. */
  function ExploreCell(b: Board, p: Cell): (res: (Board, bool))
    requires Shaped(b) && b.rows >= 2 && b.cols >= 2 && InBounds(b.rows, b.cols, p)
    ensures res.1 <==> At(b.field, p) != Mine
    ensures !res.1 ==> res.0 == b.(dead := true)
    ensures res.1 ==> Advances(b, res.0) && Revealed(res.0, p)
  {
    if At(b.field, p) == Mine then
      (b.(dead := true), false)
    else
      (RevealField(b, p), true)
  }
}
