/** Mine placement (`fillFieldWithMines`): rejection sampling of random cells, then hint
    derivation. The random source is a supplied sequence of drawn cells. */
module Placement {
  import opened Marks
  import opened Grids
  import opened Hints

  datatype Option<T> = None | Some(value: T)

  function Max0(n: int): nat {
    if n < 0 then 0 else n
  }

  /** Writing a mine into a mine-free cell adds exactly that cell to the mine set. */
  lemma MineSetPut(g: Grid, rows: int, cols: int, c: Cell)
    requires IsGrid(g, rows, cols) && InBounds(rows, cols, c) && At(g, c) != Mine
    ensures c !in MineSet(g, rows, cols)
    ensures MineSet(Put(g, rows, cols, c, Mine), rows, cols) == MineSet(g, rows, cols) + {c}
    ensures |MineSet(Put(g, rows, cols, c, Mine), rows, cols)| == |MineSet(g, rows, cols)| + 1
  {
  }

  /** The `repeat (numberOfMines)` loop: each round consumes draws until one lands on a
      cell without a mine and puts a mine there. `None` means the supplied draws ran out
      before every mine was placed. */
  function PlaceByRejection(g: Grid, rows: int, cols: int, n: int, draws: seq<Cell>): (r: Option<Grid>)
    requires IsGrid(g, rows, cols)
    requires forall i :: 0 <= i < |draws| ==> InBounds(rows, cols, draws[i])
    ensures r.None? ==> n > 0
    ensures r.Some? ==> IsGrid(r.value, rows, cols)
    ensures r.Some? ==> MineSet(g, rows, cols) <= MineSet(r.value, rows, cols)
    ensures r.Some? ==> |MineSet(r.value, rows, cols)| == |MineSet(g, rows, cols)| + Max0(n)
    ensures r.Some? ==> forall c :: InBounds(rows, cols, c) && At(r.value, c) != Mine ==> At(r.value, c) == At(g, c)
    decreases |draws|
  {
    if n <= 0 then Some(g)
    else if |draws| == 0 then None
    else
      var c := draws[0];
      assert InBounds(rows, cols, c);
      if At(g, c) != Mine then
        MineSetPut(g, rows, cols, c);
        PlaceByRejection(Put(g, rows, cols, c, Mine), rows, cols, n - 1, draws[1..])
      else
        PlaceByRejection(g, rows, cols, n, draws[1..])
  }

  /** The sampling succeeds when the draws are enough distinct free cells: every draw then
      lands on a cell without a mine, so `n` draws place `n` mines. */
  lemma {:induction false} PlaceByRejectionSucceeds(g: Grid, rows: int, cols: int, n: int, draws: seq<Cell>)
    requires IsGrid(g, rows, cols)
    requires forall i :: 0 <= i < |draws| ==> InBounds(rows, cols, draws[i]) && At(g, draws[i]) != Mine
    requires Distinct(draws) && n <= |draws|
    ensures PlaceByRejection(g, rows, cols, n, draws).Some?
    decreases |draws|
  {
    if n > 0 {
      var c := draws[0];
      var g' := Put(g, rows, cols, c, Mine);
      var rest := draws[1..];
      forall i | 0 <= i < |rest| ensures InBounds(rows, cols, rest[i]) && At(g', rest[i]) != Mine {
        assert rest[i] == draws[i + 1] && draws[i + 1] != c;
      }
      PlaceByRejectionSucceeds(g', rows, cols, n - 1, rest);
    }
  }

  /** `fillFieldWithMines`: with more mines than cells nothing happens (not even hint
      derivation); otherwise the mines are placed and the hints derived. */
  method FillFieldWithMines(f: Grid, rows: int, cols: int, numberOfMines: int, draws: seq<Cell>)
    returns (r: Option<Grid>)
    requires rows >= 2 && cols >= 2 && IsGrid(f, rows, cols)
    requires forall i :: 0 <= i < |draws| ==> InBounds(rows, cols, draws[i])
    ensures numberOfMines > rows * cols ==> r == Some(f)
    ensures r.None? <==> numberOfMines <= rows * cols && PlaceByRejection(f, rows, cols, numberOfMines, draws).None?
    ensures r.Some? ==> IsGrid(r.value, rows, cols)
    ensures r.Some? && numberOfMines <= rows * cols ==>
      && MineSet(f, rows, cols) <= MineSet(r.value, rows, cols)
      && |MineSet(r.value, rows, cols)| == |MineSet(f, rows, cols)| + Max0(numberOfMines)
      && Hinted(r.value, rows, cols)
    ensures r.Some? && numberOfMines <= rows * cols ==>
      forall p :: InBounds(rows, cols, p) && At(r.value, p) != Mine ==>
        var n := MinesAround(r.value, rows, cols, p);
        && (n > 0 ==> IsNumber(At(r.value, p)) && DigitValue(At(r.value, p)) == n)
        && (n == 0 ==> At(r.value, p) == At(f, p))
  {
    if numberOfMines > rows * cols {
      return Some(f);
    }
    var placed := PlaceByRejection(f, rows, cols, numberOfMines, draws);
    if placed.None? {
      return None;
    }
    var g := placed.value;
    var h := UpdateWithNumbers(g, rows, cols);
    HintsOfIsHinted(g, h, rows, cols);
    assert MineSet(h, rows, cols) == MineSet(g, rows, cols) by {
      forall d | d in MineSet(h, rows, cols) ensures d in MineSet(g, rows, cols) {
        assert At(h, d) == Mine;
      }
      forall d | d in MineSet(g, rows, cols) ensures d in MineSet(h, rows, cols) {
        assert At(g, d) == Mine;
      }
    }
    forall p | InBounds(rows, cols, p) && At(h, p) != Mine && MinesAround(h, rows, cols, p) == 0
      ensures At(h, p) == At(f, p)
    {
      MinesAroundSameMines(g, h, rows, cols, p);
      assert At(h, p) == HintAt(g, rows, cols, p);
    }
    return Some(h);
  }
}
