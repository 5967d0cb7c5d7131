/** Hint derivation (`updateWithNumbers`): every cell that holds no mine gets the number
    of mines among its in-grid neighbours, written as a digit, unless that number is 0. */
module Hints {
  import opened Marks
  import opened Grids

  /** The neighbours `updateWithNumbers` tests for cell `p` (row `r`, column `c`), in the
      order its hand-unrolled corner, edge and interior cases test them. */
  function HintTargets(rows: int, cols: int, p: Cell): (cs: seq<Cell>)
    requires rows >= 2 && cols >= 2 && InBounds(rows, cols, p)
    ensures ListsNeighbours(rows, cols, p, cs)
    ensures |cs| == Degree(rows, cols, p)
  {
    var r, c := p.y, p.x;
    if r == 0 then
      if c == 0 then
        [Cell(r, c + 1), Cell(r + 1, c + 1), Cell(r + 1, c)]
      else if c == cols - 1 then
        [Cell(r, c - 1), Cell(r + 1, c - 1), Cell(r + 1, c)]
      else
        [Cell(r, c + 1), Cell(r + 1, c + 1), Cell(r + 1, c), Cell(r + 1, c - 1), Cell(r, c - 1)]
    else if r == rows - 1 then
      if c == 0 then
        [Cell(r, c + 1), Cell(r - 1, c + 1), Cell(r - 1, c)]
      else if c == cols - 1 then
        [Cell(r, c - 1), Cell(r - 1, c - 1), Cell(r - 1, c)]
      else
        [Cell(r, c + 1), Cell(r - 1, c + 1), Cell(r - 1, c), Cell(r - 1, c - 1), Cell(r, c - 1)]
    else
      if c == 0 then
        [Cell(r, c + 1), Cell(r + 1, c + 1), Cell(r + 1, c), Cell(r - 1, c), Cell(r - 1, c + 1)]
      else if c == cols - 1 then
        [Cell(r - 1, c), Cell(r - 1, c - 1), Cell(r, c - 1), Cell(r + 1, c - 1), Cell(r + 1, c)]
      else
        [Cell(r - 1, c - 1), Cell(r, c - 1), Cell(r + 1, c - 1), Cell(r - 1, c),
         Cell(r + 1, c), Cell(r - 1, c + 1), Cell(r, c + 1), Cell(r + 1, c + 1)]
  }

  /** The `minesAround` that `updateWithNumbers` computes for cell `p` of grid `g`. */
  function UnrolledCount(g: Grid, rows: int, cols: int, p: Cell): nat
    requires rows >= 2 && cols >= 2 && IsGrid(g, rows, cols) && InBounds(rows, cols, p)
  {
    CountMines(g, rows, cols, HintTargets(rows, cols, p))
  }

  /** Counting over any list of a cell's neighbours, each listed once, gives the generic
      neighbour mine count. */
  lemma CountOverNeighbourList(g: Grid, rows: int, cols: int, p: Cell, cs: seq<Cell>)
    requires IsGrid(g, rows, cols) && ListsNeighbours(rows, cols, p, cs)
    ensures forall i :: 0 <= i < |cs| ==> InBounds(rows, cols, cs[i])
    ensures CountMines(g, rows, cols, cs) == MinesAround(g, rows, cols, p)
  {
    CountMinesIsCardinality(g, rows, cols, cs);
    NeighboursListed(rows, cols, p, cs);
  }

  /** The hand-unrolled count agrees with the generic in-grid neighbour count, and so
      never exceeds the cell's number of neighbours. */
  lemma UnrolledCountIsMinesAround(g: Grid, rows: int, cols: int, p: Cell)
    requires rows >= 2 && cols >= 2 && IsGrid(g, rows, cols) && InBounds(rows, cols, p)
    ensures UnrolledCount(g, rows, cols, p) == MinesAround(g, rows, cols, p)
    ensures MinesAround(g, rows, cols, p) <= Degree(rows, cols, p) <= 8
  {
    var cs := HintTargets(rows, cols, p);
    CountOverNeighbourList(g, rows, cols, p, cs);
    CountMinesAtMostLength(g, rows, cols, cs);
  }

  lemma {:induction false} CountMinesAtMostLength(g: Grid, rows: int, cols: int, cs: seq<Cell>)
    requires IsGrid(g, rows, cols)
    requires forall i :: 0 <= i < |cs| ==> InBounds(rows, cols, cs[i])
    ensures CountMines(g, rows, cols, cs) <= |cs|
  {
    if |cs| > 0 {
      CountMinesAtMostLength(g, rows, cols, cs[1..]);
    }
  }

  /** What hint derivation leaves in cell `p` of a grid whose mines are those of `g`:
      mines stay, a positive mine count becomes its digit, a zero count leaves the cell. */
  function HintAt(g: Grid, rows: int, cols: int, p: Cell): char
    requires IsGrid(g, rows, cols) && InBounds(rows, cols, p)
  {
    if At(g, p) == Mine then Mine
    else if MinesAround(g, rows, cols, p) == 0 then At(g, p)
    else HintDigit(MinesAround(g, rows, cols, p))
  }

  /** `h` is the grid `g` with its hints derived. */
  ghost predicate HintsOf(g: Grid, h: Grid, rows: int, cols: int)
    requires IsGrid(g, rows, cols) && IsGrid(h, rows, cols)
  {
    forall p :: InBounds(rows, cols, p) ==> At(h, p) == HintAt(g, rows, cols, p)
  }

  /** Cell `p` comes before position (`r`, `c`) of the row-major pass. */
  predicate Before(p: Cell, r: int, c: int) {
    p.y < r || (p.y == r && p.x < c)
  }

  /** The pass has reached (`r`, `c`): `h` has `g`'s mines, the cells before that
      position carry their hints, and the others are still as in `g`. */
  ghost predicate PassAt(g: Grid, h: Grid, rows: int, cols: int, r: int, c: int)
    requires IsGrid(g, rows, cols)
  {
    && IsGrid(h, rows, cols)
    && SameMines(g, h, rows, cols)
    && (forall p :: InBounds(rows, cols, p) && Before(p, r, c) ==> At(h, p) == HintAt(g, rows, cols, p))
    && (forall p :: InBounds(rows, cols, p) && !Before(p, r, c) ==> At(h, p) == At(g, p))
  }

  /** One iteration of the inner loop of `updateWithNumbers` on cell `p`: a cell without a
      mine gets the digit of its count, unless the count is 0. */
  function UpdateCell(h: Grid, rows: int, cols: int, p: Cell): Grid
    requires rows >= 2 && cols >= 2 && IsGrid(h, rows, cols) && InBounds(rows, cols, p)
  {
    if At(h, p) != Mine && UnrolledCount(h, rows, cols, p) != 0 then
      Put(h, rows, cols, p, HintDigit(UnrolledCount(h, rows, cols, p)))
    else
      h
  }

  lemma UpdateCellAdvances(g: Grid, h: Grid, rows: int, cols: int, r: int, c: int)
    requires rows >= 2 && cols >= 2 && IsGrid(g, rows, cols)
    requires 0 <= r < rows && 0 <= c < cols
    requires PassAt(g, h, rows, cols, r, c)
    ensures PassAt(g, UpdateCell(h, rows, cols, Cell(r, c)), rows, cols, r, c + 1)
  {
    var p := Cell(r, c);
    UnrolledCountIsMinesAround(h, rows, cols, p);
    MinesAroundSameMines(g, h, rows, cols, p);
    var h' := UpdateCell(h, rows, cols, p);
    assert At(h, p) == At(g, p);
    assert At(h', p) == HintAt(g, rows, cols, p);
    assert forall q :: InBounds(rows, cols, q) && q != p ==> At(h', q) == At(h, q);
    assert SameMines(g, h', rows, cols);
    forall q | InBounds(rows, cols, q) && Before(q, r, c + 1)
      ensures At(h', q) == HintAt(g, rows, cols, q)
    {
      if q != p {
        assert Before(q, r, c);
      }
    }
  }

  /** The in-place, row-by-row pass of `updateWithNumbers`. Later cells are counted on the
      partly rewritten grid; the result is nevertheless the hint grid of the input, so the
      traversal order does not matter. */
  method UpdateWithNumbers(g: Grid, rows: int, cols: int) returns (h: Grid)
    requires rows >= 2 && cols >= 2 && IsGrid(g, rows, cols)
    ensures IsGrid(h, rows, cols)
    ensures HintsOf(g, h, rows, cols)
  {
    h := g;
    var r := 0;
    while r < rows
      invariant 0 <= r <= rows
      invariant PassAt(g, h, rows, cols, r, 0)
    {
      var c := 0;
      while c < cols
        invariant 0 <= c <= cols
        invariant PassAt(g, h, rows, cols, r, c)
      {
        UpdateCellAdvances(g, h, rows, cols, r, c);
        h := UpdateCell(h, rows, cols, Cell(r, c));
        c := c + 1;
      }
      assert forall p :: InBounds(rows, cols, p) ==> (Before(p, r, cols) <==> Before(p, r + 1, 0));
      r := r + 1;
    }
    assert forall p :: InBounds(rows, cols, p) ==> Before(p, rows, 0);
  }

  /** A true field whose every cell already carries its own hint. */
  ghost predicate Hinted(f: Grid, rows: int, cols: int)
    requires IsGrid(f, rows, cols)
  {
    HintsOf(f, f, rows, cols)
  }

  /** Hint derivation keeps the mines, gives every other cell the digit of its mine count
      when that count is positive, and the result is its own hint grid (deriving again
      changes nothing). */
  lemma HintsOfIsHinted(g: Grid, h: Grid, rows: int, cols: int)
    requires IsGrid(g, rows, cols) && IsGrid(h, rows, cols)
    requires HintsOf(g, h, rows, cols)
    ensures SameMines(g, h, rows, cols)
    ensures forall p :: InBounds(rows, cols, p) && At(h, p) != Mine && MinesAround(h, rows, cols, p) > 0 ==>
      IsNumber(At(h, p)) && DigitValue(At(h, p)) == MinesAround(h, rows, cols, p)
    ensures Hinted(h, rows, cols)
  {
    assert SameMines(g, h, rows, cols);
    forall p | InBounds(rows, cols, p)
      ensures At(h, p) == HintAt(h, rows, cols, p)
      ensures At(h, p) != Mine && MinesAround(h, rows, cols, p) > 0 ==>
        IsNumber(At(h, p)) && DigitValue(At(h, p)) == MinesAround(h, rows, cols, p)
    {
      MinesAroundSameMines(g, h, rows, cols, p);
      MinesAroundAtMostEight(g, rows, cols, p);
    }
  }

  lemma MinesAroundAtMostEight(g: Grid, rows: int, cols: int, p: Cell)
    requires IsGrid(g, rows, cols)
    ensures MinesAround(g, rows, cols, p) <= 8
  {
    var n := Neighbours(rows, cols, p);
    var all := [Cell(p.y - 1, p.x - 1), Cell(p.y - 1, p.x), Cell(p.y - 1, p.x + 1), Cell(p.y, p.x - 1),
                Cell(p.y, p.x + 1), Cell(p.y + 1, p.x - 1), Cell(p.y + 1, p.x), Cell(p.y + 1, p.x + 1)];
    assert MinesAmong(g, rows, cols, n) <= set q | q in all;
    SeqSetSize(all);
    SubsetCard(MinesAmong(g, rows, cols, n), set q | q in all);
  }

  /** In a hinted field a cell that is neither a mine nor a digit has no mine next to it:
      the cells the flood fill spreads from are mine-free around. */
  ghost predicate ZeroCellsMineFree(f: Grid, rows: int, cols: int)
    requires IsGrid(f, rows, cols)
  {
    forall p, q :: InBounds(rows, cols, p) && At(f, p) != Mine && !IsNumber(At(f, p)) && Adjacent(rows, cols, p, q) ==>
      At(f, q) != Mine
  }

  lemma HintedZeroCellsMineFree(f: Grid, rows: int, cols: int)
    requires IsGrid(f, rows, cols) && Hinted(f, rows, cols)
    ensures ZeroCellsMineFree(f, rows, cols)
  {
    forall p, q | InBounds(rows, cols, p) && At(f, p) != Mine && !IsNumber(At(f, p)) && Adjacent(rows, cols, p, q)
      ensures At(f, q) != Mine
    {
      assert At(f, p) == HintAt(f, rows, cols, p);
      var m := MinesAmong(f, rows, cols, Neighbours(rows, cols, p));
      assert |m| == 0;
      assert q !in m;
    }
  }
}
