# Minesweeper board engine in Dafny

This project models the board engine of the console Minesweeper `MineSweeper` class in
`Main.kt`. A board is two `rows × cols` character grids indexed `[y][x]`:

- the true field (`playingField`) holds `'X'` for a mine, a hint digit `'1'..'8'`, `'.'` and `'/'`;
- the view (`hiddenPlayingField`) holds `'.'`, `'*'` for a marked cell, `'/'` for an explored empty cell, and the digits.

The model is functional. Grids are `seq<seq<char>>`, and a `Board` datatype carries both grids,
the size and the `youAreDead` flag. Every operation returns a new board.

| module | file | what it models |
|---|---|---|
| `Marks` | marks.dfy | the `Marks` characters, `fieldIsNumber`'s digit test, the count-to-digit `when` |
| `Grids` | grids.dfy | grids and cells; the generic in-grid neighbour set and its mine count |
| `Hints` | hints.dfy | `updateWithNumbers`, with its hand-unrolled neighbour lists |
| `Placement` | placement.dfy | `fillFieldWithMines` (rejection sampling, then hints) |
| `Boards` | board.dfy | the board, `markCell`, and the invariants between the two grids |
| `Reveal` | reveal.dfy | `exploreCell` and the recursive flood fill `revealField` |
| `WinCheck` | win.dfy | `checkIfAllMarked` |
| `Game`, `CenterMine` | game.dfy | board creation, the move dispatch, invariants over a whole move, a 3×3 example |

The source unrolls the neighbour enumeration by hand, once for hints and once for the flood fill.
Each unrolled list is checked against one generic definition, `Grids.Adjacent`. Each list
holds every in-grid neighbour exactly once and nothing else. It has 3 entries in a corner,
5 on an edge and 8 inside.

The flood fill is two mutually recursive functions, `RevealField` and `RevealAll`. The
termination measure is the number of cells whose true field is not a digit and whose view
is not `'/'`. Exploring a cell removes it from that set, and nothing adds to it. This works
on any pair of grids. The simpler measure, view cells not equal to `'/'`, can grow when a
digit is copied over a `'/'`, so it needs the consistency invariant.

In several places the code departs from the usual Minesweeper rules. The model follows the code:

- In Minesweeper an explored cell normally stays explored. Here `markCell` turns an explored
  `'/'` view cell back into `'.'`, while the true field stays `'/'` (`Boards.MarkUnexplores`).
- The mine field is normally fixed once the game starts. Here `revealField` writes `'/'` into
  the true field as well as into the view. It only ever changes `'.'` into `'/'`
  (`Game.MoveKeepsInvariant`).
- A game is normally won once every safe cell is revealed or every mine is marked. Here
  `checkIfAllMarked` also asks for at least one cell where the grids disagree. On a field
  without mines the check can never succeed, even once everything is revealed
  (`WinCheck.NoMinesNeverWon`).
- In particular, on a 3×3 board with one mine in the centre, marking the centre after
  exploring a corner does not win. The seven unexplored hint cells still disagree with the
  view (`CenterMine.CornerThenMarkCentre`).
- A move with out-of-range coordinates is normally rejected. Here the code throws. The model
  requires in-range coordinates instead.

## Model

| member | source | states |
|---|---|---|
| `Marks.IsNumber` | Main.kt:236-240 | membership in "12345678" holds exactly for the characters '1' to '8', whose digit value is 1 to 8 |
| `Marks.HintDigit` | Main.kt:320-329 | the digit chosen for a count of 1 to 8 has that value; any other count gives '8' |
| `Hints.HintTargets` | Main.kt:253-317 | the cells the hint code tests for a cell are in the grid and adjacent to it; every in-grid neighbour is tested, none twice; there are 3, 5 or 8 of them by position |
| `Hints.UnrolledCountIsMinesAround` | Main.kt:251-317 | the hand-unrolled mine count equals the number of mines among the generic in-grid neighbours, which is at most 8 |
| `Hints.UpdateWithNumbers` | Main.kt:245-336 | the in-place row-by-row pass leaves mines alone; a non-mine cell gets the digit of its neighbour mine count when that is positive and is left unchanged when it is 0; counts refer to the input grid, so the traversal order does not matter |
| `Hints.HintsOfIsHinted` | Main.kt:245-336 | after hint derivation the mines are where they were, every non-mine cell with a positive count shows that count, and deriving again changes nothing |
| `Hints.HintedZeroCellsMineFree` | Main.kt:319-330 | in a hinted field, a cell that is neither a mine nor a digit has no mine among its neighbours |
| `Placement.PlaceByRejection` | Main.kt:344-355 | each round turns exactly one non-mine cell into a mine: the old mines stay, the mine count grows by the requested number (none if it is not positive), and no other cell changes |
| `Placement.PlaceByRejectionSucceeds` | Main.kt:344-355 | when the draws include at least the requested number of distinct in-grid cells without a mine, every mine is placed and the sampling succeeds |
| `Placement.FillFieldWithMines` | Main.kt:341-358 | with more mines than cells the field is returned unchanged, without hints; otherwise the result is missing exactly when the sampling runs out of draws, and on success the mine count grows by the requested number, every non-mine cell shows the digit of its mine count, and zero-count cells keep their old content |
| `Boards.FieldIsNumber` | Main.kt:236-240 | true iff the chosen grid's cell (the view when `hiddenField`, else the true field) holds a character from '1' to '8' |
| `Boards.MarkCell` | Main.kt:98-111 | refused (false, board unchanged) exactly when the view cell shows a digit; otherwise only that view cell changes, to '*' iff it was '.', and to '.' in every other case |
| `Boards.MarkTwiceRestores` | Main.kt:105-109 | toggling an unmarked or marked cell twice succeeds both times and restores the board |
| `Boards.MarkKeepsInvariants` | Main.kt:98-111 | marking keeps every view '/' backed by a '/' in the true field, and keeps mines out of the view |
| `Boards.MarkUnexplores` | Main.kt:105-109 | marking an explored '/' cell succeeds and hides it again: view '.', true field still '/' |
| `Reveal.RevealTargets` | Main.kt:137-208 | the flood fill recurses into every in-grid neighbour exactly once, never out of range: 3 in a corner, 5 on an edge, 8 inside |
| `Reveal.RevealField` | Main.kt:130-211 | terminates; the cell ends revealed; on a digit cell only that digit is copied into the view; otherwise the board only advances: nothing revealed is un-revealed, the true field changes only where a non-digit cell becomes '/' in both grids, and consistency is kept |
| `Reveal.RevealAll` | Main.kt:137-208 | the neighbour calls made one after another reveal every listed cell and only advance the board |
| `Reveal.RevealFieldSettles` | Main.kt:133-208 | every cell the fill newly explores ends with all of its in-grid neighbours revealed |
| `Reveal.RevealAllSettles` | Main.kt:137-208 | the same for the sequence of neighbour calls |
| `Reveal.RevealFieldSafe` | Main.kt:117-135 | from a non-mine cell in a field whose zero cells have no mine neighbours, the fill keeps every mine, never writes a mine cell of either grid, and keeps that field property |
| `Reveal.RevealAllSafe` | Main.kt:137-208 | the same for a sequence of non-mine neighbour cells |
| `Reveal.ExploreCell` | Main.kt:116-125 | on a mine: returns false, sets the dead flag and changes neither grid; otherwise returns true and the cell is revealed by the fill |
| `WinCheck.CheckIfAllMarked` | Main.kt:216-231 | true iff some cell differs between the grids and every differing cell is a mine in the field and '*' in the view |
| `WinCheck.WonMeansExactlyMinesMarked` | Main.kt:216-231 | while the view shows no mine, the check succeeds iff there is a mine, every mine is marked, and every other cell shows its true content |
| `WinCheck.NoMinesNeverWon` | Main.kt:224-230 | on a field without mines the check fails, even when the grids agree everywhere |
| `Game.NewGame` | Main.kt:11-17 | a fresh board has an all-'.' view, the invariants hold, and it holds exactly the requested number of mines (none when too many were requested); it is missing exactly when the sampling runs out of draws, and never when the draws hold at least that many distinct cells |
| `Game.ApplyMove` | Main.kt:90-92 | a move succeeds iff its mark is allowed or its explored cell has no mine; the dead flag is set exactly by exploring a mine and never cleared; a refused move changes neither grid |
| `Game.MoveKeepsInvariant` | Main.kt:98-135 | every move keeps the board invariants and the mines; the true field only changes '.' to '/'; a mine's view changes only by marking that cell |
| `CenterMine.CentreMineHints` | Main.kt:245-336 | with one mine in the centre of a 3×3 field, every other cell gets hint '1' |
| `CenterMine.CornerThenMarkCentre` | Main.kt:116-231 | on that board, exploring a corner shows only the corner's '1'; marking the centre afterwards does not win |

## Left out

- `run`, `promptForMines` and `promptForInput`: console input, `toInt`/`split` parsing and the game loop. The dispatch on the `"mine"` token is the `Game.Move` choice.
- `printField`, `printTheField` and the console messages: display only. This includes the "There is a number here!" that `markCell` prints when it refuses a move.
- `fillHiddenField`: never called by the program.
- `kotlin.random.Random`: the draws are a supplied sequence of in-grid cells. `Placement.PlaceByRejection` returns `None` when the draws run out before every mine is placed. The source would keep drawing; its termination is only probabilistic. `Placement.PlaceByRejectionSucceeds` gives a sufficient condition for success: enough distinct free draws.
- Out-of-range coordinates and boards smaller than 2×2: the source throws on them. The model requires in-range coordinates, and at least two rows and two columns wherever neighbours are enumerated.
- Kotlin's 32-bit `Int`: sizes and counts are unbounded integers, so an overflowing `cols * rows` is not modelled.
- Reveal.RevealField: states that newly explored cells have all neighbours revealed, and that every changed cell ends up revealed. It does not state that cells outside the explored region and its border stay untouched.
