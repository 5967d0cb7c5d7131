/** One game: board creation with mine placement, the per-turn move dispatch, and the
    invariants every move keeps. */
module Game {
  import opened Marks
  import opened Grids
  import opened Hints
  import opened Placement
  import opened Boards
  import opened Reveal

  /** A player's move on a cell: the token "mine" marks or unmarks, anything else explores. */
  datatype Move = MarkMove(p: Cell) | ExploreMove(p: Cell)

  /** The characters the true field can hold. */
  predicate FieldChar(ch: char) {
    ch == Mine || ch == Unmarked || ch == Explored || IsNumber(ch)
  }

  /** The characters the view can hold. */
  predicate ViewChar(ch: char) {
    ch == Marked || ch == Unmarked || ch == Explored || IsNumber(ch)
  }

  /** What holds of the board between moves. */
  ghost predicate GameInvariant(b: Board) {
    && Shaped(b) && b.rows >= 2 && b.cols >= 2
    && (forall c :: InBounds(b.rows, b.cols, c) ==> FieldChar(At(b.field, c)) && ViewChar(At(b.view, c)))
    && Consistent(b)
    && ViewHidesMines(b)
    && ZeroCellsMineFree(b.field, b.rows, b.cols)
  }

  /** The `MineSweeper` constructor followed by `fillFieldWithMines`: both grids start all
      '.'; with no more mines than cells, exactly that many mines are placed (none for a
      negative count) and the hints derived; with more, the board stays empty. */
  method NewGame(rows: int, cols: int, numberOfMines: int, draws: seq<Cell>) returns (r: Option<Board>)
    requires rows >= 2 && cols >= 2
    requires forall i :: 0 <= i < |draws| ==> InBounds(rows, cols, draws[i])
    ensures r.None? <==>
      numberOfMines <= rows * cols && PlaceByRejection(Filled(rows, cols, Unmarked), rows, cols, numberOfMines, draws).None?
    ensures Distinct(draws) && numberOfMines <= |draws| ==> r.Some?
    ensures r.Some? ==> GameInvariant(r.value) && !r.value.dead && r.value.rows == rows && r.value.cols == cols
    ensures r.Some? ==> forall c :: InBounds(rows, cols, c) ==> At(r.value.view, c) == Unmarked
    ensures r.Some? ==> |MineSet(r.value.field, rows, cols)| == if numberOfMines > rows * cols then 0 else Max0(numberOfMines)
  {
    var b := NewBoard(rows, cols);
    assert MineSet(b.field, rows, cols) == {};
    if Distinct(draws) && numberOfMines <= |draws| {
      PlaceByRejectionSucceeds(b.field, rows, cols, numberOfMines, draws);
    }
    var f := FillFieldWithMines(b.field, rows, cols, numberOfMines, draws);
    if f.None? {
      return None;
    }
    var field := f.value;
    if numberOfMines <= rows * cols {
      HintedZeroCellsMineFree(field, rows, cols);
      forall c | InBounds(rows, cols, c) ensures FieldChar(At(field, c)) {
        if At(field, c) != Mine && MinesAround(field, rows, cols, c) == 0 {
          assert At(field, c) == At(b.field, c);
        }
      }
    }
    r := Some(b.(field := field));
  }

  /** One turn of `promptForInput`: dispatch to `markCell` or `exploreCell`. */
  function ApplyMove(b: Board, m: Move): (res: (Board, bool))
    requires Shaped(b) && b.rows >= 2 && b.cols >= 2 && InBounds(b.rows, b.cols, m.p)
    ensures res.1 <==> if m.MarkMove? then !IsNumber(At(b.view, m.p)) else At(b.field, m.p) != Mine
    ensures res.0.dead <==> b.dead || (m.ExploreMove? && At(b.field, m.p) == Mine)
    ensures !res.1 ==> res.0.field == b.field && res.0.view == b.view
    ensures Shaped(res.0) && res.0.rows == b.rows && res.0.cols == b.cols
  {
    match m
    case MarkMove(p) => MarkCell(b, p)
    case ExploreMove(p) => ExploreCell(b, p)
  }

  /** Every move keeps the invariant; the true field keeps its mines and only ever turns a
      '.' cell into '/', and the view of a mine cell changes only by marking it. */
  lemma MoveKeepsInvariant(b: Board, m: Move)
    requires GameInvariant(b) && InBounds(b.rows, b.cols, m.p)
    ensures var r := ApplyMove(b, m).0;
      && GameInvariant(r)
      && SameMines(b.field, r.field, b.rows, b.cols)
      && (forall c :: InBounds(b.rows, b.cols, c) && At(r.field, c) != At(b.field, c) ==>
            At(b.field, c) == Unmarked && At(r.field, c) == Explored)
      && (forall c :: InBounds(b.rows, b.cols, c) && At(b.field, c) == Mine && At(r.view, c) != At(b.view, c) ==>
            m.MarkMove? && c == m.p)
  {
    var r := ApplyMove(b, m).0;
    match m
    case MarkMove(p) =>
      MarkKeepsInvariants(b, p);
    case ExploreMove(p) =>
      if At(b.field, p) != Mine {
        RevealFieldSafe(b, p);
        assert Advances(b, r);
        forall c | InBounds(b.rows, b.cols, c)
          ensures FieldChar(At(r.field, c)) && ViewChar(At(r.view, c)) && At(r.view, c) != Mine
        {
          if At(r.view, c) != At(b.view, c) {
            assert Revealed(r, c);
          }
        }
      }
  }
}

/** The 3×3 board with one mine in the centre. */
module CenterMine {
  import opened Marks
  import opened Grids
  import opened Hints
  import opened Boards
  import opened Reveal
  import opened WinCheck

  const Centre := Cell(1, 1)

  /** The field after placement, before hints: only the centre holds a mine. */
  function Placed(): (g: Grid)
    ensures IsGrid(g, 3, 3)
  {
    Put(Filled(3, 3, Unmarked), 3, 3, Centre, Mine)
  }

  /** The hinted field: every cell around the centre mine shows '1'. */
  function Hinted3(): (g: Grid)
    ensures IsGrid(g, 3, 3)
  {
    [['1', '1', '1'], ['1', 'X', '1'], ['1', '1', '1']]
  }

  /** Hint derivation on the placed field gives '1' in all eight other cells. */
  lemma CentreMineHints()
    ensures HintsOf(Placed(), Hinted3(), 3, 3)
  {
    var g := Placed();
    forall p | InBounds(3, 3, p) ensures At(Hinted3(), p) == HintAt(g, 3, 3, p) {
      if p != Centre {
        var m := MinesAmong(g, 3, 3, Neighbours(3, 3, p));
        assert Centre in m;
        assert m == {Centre} by {
          forall q | q in m ensures q == Centre {
            assert At(g, q) == Mine;
          }
        }
      }
    }
  }

  /** Exploring a corner shows only that corner's '1'; marking the centre afterwards does
      not win, because the other seven hint cells still disagree with the view. */
  lemma CornerThenMarkCentre()
    ensures var b := Board(3, 3, Hinted3(), Filled(3, 3, Unmarked), false);
      var (b1, ok1) := ExploreCell(b, Cell(0, 0));
      var (b2, ok2) := MarkCell(b1, Centre);
      && ok1 && ok2
      && At(b1.view, Cell(0, 0)) == '1'
      && (forall c :: InBounds(3, 3, c) && c != Cell(0, 0) ==> At(b1.view, c) == Unmarked)
      && !Won(b2)
  {
    var b := Board(3, 3, Hinted3(), Filled(3, 3, Unmarked), false);
    var b1 := ExploreCell(b, Cell(0, 0)).0;
    var b2 := MarkCell(b1, Centre).0;
    assert Differs(b2, Cell(0, 1)) && !MarkedMine(b2, Cell(0, 1));
  }
}
