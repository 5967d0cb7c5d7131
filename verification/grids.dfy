/** Rectangular character grids indexed `[y][x]`, the cells of a grid, and the generic
    notion of the in-grid neighbours of a cell together with its mine count. */
module Grids {
  import opened Marks

  type Grid = seq<seq<char>>

  /** A cell position: row `y`, column `x`. */
  datatype Cell = Cell(y: int, x: int)

  /** `g` has `rows` rows of `cols` characters each. */
  predicate IsGrid(g: Grid, rows: int, cols: int) {
    |g| == rows && forall r :: 0 <= r < rows ==> |g[r]| == cols
  }

  predicate InBounds(rows: int, cols: int, c: Cell) {
    0 <= c.y < rows && 0 <= c.x < cols
  }

  function At(g: Grid, c: Cell): char
    requires 0 <= c.y < |g| && 0 <= c.x < |g[c.y]|
  {
    g[c.y][c.x]
  }

  /** The grid with cell `c` overwritten by `v`. */
  function Put(g: Grid, rows: int, cols: int, c: Cell, v: char): (h: Grid)
    requires IsGrid(g, rows, cols) && InBounds(rows, cols, c)
    ensures IsGrid(h, rows, cols)
    ensures At(h, c) == v
    ensures forall d :: InBounds(rows, cols, d) && d != c ==> At(h, d) == At(g, d)
  {
    g[c.y := g[c.y][c.x := v]]
  }

  /** The grid of the given shape with every cell set to `v`. */
  function Filled(rows: nat, cols: nat, v: char): (g: Grid)
    ensures IsGrid(g, rows, cols)
    ensures forall c :: InBounds(rows, cols, c) ==> At(g, c) == v
  {
    seq(rows, _ => seq(cols, _ => v))
  }

  /** `q` is one of the up-to-eight in-grid cells touching `p`. */
  predicate Adjacent(rows: int, cols: int, p: Cell, q: Cell) {
    && InBounds(rows, cols, q)
    && q != p
    && p.y - 1 <= q.y <= p.y + 1
    && p.x - 1 <= q.x <= p.x + 1
  }

  /** The in-grid neighbours of `p` as a set. */
  function Neighbours(rows: int, cols: int, p: Cell): (s: set<Cell>)
    ensures forall q :: q in s <==> Adjacent(rows, cols, p, q)
  {
    set y, x | p.y - 1 <= y <= p.y + 1 && p.x - 1 <= x <= p.x + 1 && Adjacent(rows, cols, p, Cell(y, x))
      :: Cell(y, x)
  }

  /** The mine-holding cells among `s`. */
  function MinesAmong(g: Grid, rows: int, cols: int, s: set<Cell>): set<Cell>
    requires IsGrid(g, rows, cols)
  {
    set q | q in s && InBounds(rows, cols, q) && At(g, q) == Mine
  }

  /** The number of mines among the in-grid neighbours of `p`: the hint `p` should carry. */
  function MinesAround(g: Grid, rows: int, cols: int, p: Cell): nat
    requires IsGrid(g, rows, cols)
  {
    |MinesAmong(g, rows, cols, Neighbours(rows, cols, p))|
  }

  /** Every mine cell of the grid. */
  function MineSet(g: Grid, rows: int, cols: int): set<Cell>
    requires IsGrid(g, rows, cols)
  {
    set y, x | 0 <= y < rows && 0 <= x < cols && g[y][x] == Mine :: Cell(y, x)
  }

  /** Two grids of one shape hold mines in exactly the same cells. */
  ghost predicate SameMines(g: Grid, h: Grid, rows: int, cols: int)
    requires IsGrid(g, rows, cols) && IsGrid(h, rows, cols)
  {
    forall c :: InBounds(rows, cols, c) ==> (At(g, c) == Mine <==> At(h, c) == Mine)
  }

  /** A sequence without repeated elements. */
  predicate Distinct(cs: seq<Cell>) {
    forall i, j :: 0 <= i < j < |cs| ==> cs[i] != cs[j]
  }

  /** `cs` lists every in-grid neighbour of `p` exactly once, and nothing else. */
  ghost predicate ListsNeighbours(rows: int, cols: int, p: Cell, cs: seq<Cell>) {
    && (forall i :: 0 <= i < |cs| ==> Adjacent(rows, cols, p, cs[i]))
    && (forall q :: Adjacent(rows, cols, p, q) ==> q in cs)
    && Distinct(cs)
  }

  /** How many in-grid neighbours a cell has: 3 in a corner, 5 on an edge, 8 inside. */
  function Degree(rows: int, cols: int, p: Cell): int {
    var ys := if p.y == 0 || p.y == rows - 1 then 2 else 3;
    var xs := if p.x == 0 || p.x == cols - 1 then 2 else 3;
    ys * xs - 1
  }

  /** The number of mines in the listed cells, counted one test per list entry. */
  function CountMines(g: Grid, rows: int, cols: int, cs: seq<Cell>): nat
    requires IsGrid(g, rows, cols)
    requires forall i :: 0 <= i < |cs| ==> InBounds(rows, cols, cs[i])
  {
    if |cs| == 0 then 0
    else
      var c := cs[0];
      assert InBounds(rows, cols, c);
      (if At(g, c) == Mine then 1 else 0) + CountMines(g, rows, cols, cs[1..])
  }

  /** Counting entry by entry over a repetition-free list counts the mine cells in it. */
  lemma {:induction false} CountMinesIsCardinality(g: Grid, rows: int, cols: int, cs: seq<Cell>)
    requires IsGrid(g, rows, cols)
    requires forall i :: 0 <= i < |cs| ==> InBounds(rows, cols, cs[i])
    requires Distinct(cs)
    ensures CountMines(g, rows, cols, cs) == |MinesAmong(g, rows, cols, set q | q in cs)|
  {
    if |cs| == 0 {
      assert MinesAmong(g, rows, cols, set q | q in cs) == {};
    } else {
      var rest := cs[1..];
      CountMinesIsCardinality(g, rows, cols, rest);
      var m := MinesAmong(g, rows, cols, set q | q in rest);
      assert cs[0] !in rest by {
        forall i | 0 <= i < |rest| ensures rest[i] != cs[0] {
          assert rest[i] == cs[i + 1];
        }
      }
      if At(g, cs[0]) == Mine {
        assert MinesAmong(g, rows, cols, set q | q in cs) == m + {cs[0]};
      } else {
        assert MinesAmong(g, rows, cols, set q | q in cs) == m;
      }
    }
  }

  /** A list has at most as many distinct elements as entries. */
  lemma {:induction false} SeqSetSize(cs: seq<Cell>)
    ensures |set q | q in cs| <= |cs|
  {
    if |cs| > 0 {
      SeqSetSize(cs[1..]);
      assert (set q | q in cs) == (set q | q in cs[1..]) + {cs[0]};
    }
  }

  /** A subset is no larger than its superset. */
  lemma SubsetCard(a: set<Cell>, b: set<Cell>)
    requires a <= b
    ensures |a| <= |b|
  {
    assert b == a + (b - a);
  }

  /** The neighbour mine count only depends on where the mines are. */
  lemma MinesAroundSameMines(g: Grid, h: Grid, rows: int, cols: int, p: Cell)
    requires IsGrid(g, rows, cols) && IsGrid(h, rows, cols)
    requires SameMines(g, h, rows, cols)
    ensures MinesAround(g, rows, cols, p) == MinesAround(h, rows, cols, p)
  {
    var n := Neighbours(rows, cols, p);
    assert MinesAmong(g, rows, cols, n) == MinesAmong(h, rows, cols, n);
  }

  /** A list of a cell's neighbours has exactly the neighbour set as its elements. */
  lemma NeighboursListed(rows: int, cols: int, p: Cell, cs: seq<Cell>)
    requires ListsNeighbours(rows, cols, p, cs)
    ensures Neighbours(rows, cols, p) == set q | q in cs
  {
  }
}
