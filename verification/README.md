# Minesweeper board, modelled in Dafny

This project models the `Field` class of a terminal Minesweeper game (`main.py`).
A `Field` holds two `n_row` × `n_col` grids:

- `cell`: each square is `EMPTY` or `BOMB`;
- `fog`: each square is `NO_FOG` (revealed), `FOGGY` (hidden) or `FOG_MARKED` (flagged).

Its methods cover placing bombs, hiding or revealing the whole board, counting a square's bomb
neighbours, the recursive `uncover` flood fill, toggling a flag, and the win and loss queries.
`uncover`, `mark` and `randomize` update the grids in place; `fog_up` and `defog` replace the fog
grid with a new one.

The project has three modules:

- `Grid` (`board.dfy`) holds the pure value of a board, the datatype `Board`. It defines:
  - the neighbour count, with a reference meaning: the size of the set of bomb neighbours;
  - the win and loss predicates;
  - the flag toggle;
  - the bomb-placement rule.
- `Cascade` (`cascade.dfy`) describes one call of `uncover(i, j)` as a relation
  `Uncovered(b0, b1, i, j, order)` between the boards before and after the call. `order` is the
  order in which squares were revealed. The relation says:
  - the only change is FOGGY → NO_FOG;
  - `order` lists exactly the revealed squares, each once;
  - every square after the first is a neighbour of an earlier one that *opens*, meaning it is empty
    and its count is 0;
  - no revealed square that opens is left with a FOGGY neighbour;
  - a NO_FOG or FOG_MARKED start square changes nothing.

  The module proves the step lemmas the recursion needs and the consequences for the game.
- `Game` (`field.dfy`) is the class `Field`. It holds the two grids as `array2` fields. `Uncover`, `Mark`
  and `Randomize` update them in place; `FogUp` and `Defog` allocate a fresh fog array. `Model()` reads the arrays back as a `Board`, and every method is proved against that
  value:
  - the queries are nested loops with invariants;
  - `Uncover` is the recursive method itself, with the two neighbour loops split into helper methods.

  `Uncover` terminates because every recursive call is made with fewer FOGGY squares.

Two rules of `main.py` differ from the usual Minesweeper rules; the model follows `main.py`:

- `check_win` blocks a win only on an uncovered bomb or on a FOGGY empty square. A FOG_MARKED empty
  square therefore does not stop the game from being won, although the usual rule asks for every safe
  square to be revealed (`main.py:123-133`). `IsWin` and `CheckWin` state the code's rule.
- `randomize` places a bomb where the draw `temp` satisfies `temp <= p * 100`. Draws are integers in
  [0, 100), so for p ≥ 0 exactly min(100, ⌊100·p⌋ + 1) of the 100 draws give a bomb, and the bomb
  probability is that number over 100 rather than `p`; in particular `p = 0` still places bombs
  (`main.py:48-51`). `BombDrawsCount` and `PlacedAtZero` state this.

## Model

| member | source | states |
|---|---|---|
| Game.Field.constructor | main.py:36-40 | a new field is n_row × n_col, every square EMPTY and FOGGY |
| Game.Field.FogUp | main.py:42-43 | a fresh fog grid with every square FOGGY; the bombs are unchanged |
| Game.Field.Defog | main.py:45-46 | a fresh fog grid with every square NO_FOG; the bombs are unchanged |
| Game.Field.Randomize | main.py:48-51 | given the draws `temp`, each square becomes `Placed(temp[r][c], p)`; the fog is unchanged |
| Grid.BombDrawsCount | main.py:48-51 | for every p, the number of draws in [0, 100) that give a bomb is ⌊100·p⌋ + 1 limited to [0, 100] |
| Grid.PlacedAll | main.py:48-51 | with p = 1 every draw in [0, 100) gives a bomb |
| Grid.PlacedAtZero | main.py:48-51 | with p = 0 the draw 0 still gives a bomb, and every other draw gives an empty square |
| Game.Field.CountNbors | main.py:53-62 | the result is `NborCount` of the bomb grid at (i, j) |
| Game.Field.CountRow | main.py:56-61 | the inner loop counts the in-bounds bombs in row i + di, skipping (i, j) |
| Grid.NborCount | main.py:53-62 | the count is at most 8 |
| Grid.NborCountIsCard | main.py:53-62 | the count equals the number of in-bounds bomb squares among the 8 neighbours |
| Grid.NborCountZero | main.py:53-62 | the count is 0 exactly when no in-bounds neighbour is a bomb |
| Grid.OpensSparesNbors | main.py:53-62 | every in-bounds neighbour of a square that opens is empty |
| Grid.NoBombsNoCount | main.py:53-62 | on a board with no bombs every square counts 0 |
| Game.Field.Uncover | main.py:64-78 | the new board and the reveal order satisfy `Uncovered` with respect to the old board; the bombs are unchanged |
| Game.Field.UncoverNbors | main.py:72-78 | the neighbour loops started from a square that opens complete a whole `Uncovered` |
| Game.Field.UncoverRow | main.py:73-78 | after one row offset the cascade invariant holds and that row of neighbours is no longer FOGGY |
| Game.Field.UncoverNbor | main.py:74-78 | skipping (i, j) or an out-of-bounds square, or uncovering the neighbour, keeps the cascade invariant and sweeps one more neighbour |
| Cascade.RevealShrinks | main.py:67 | revealing a FOGGY square makes the set of FOGGY squares strictly smaller |
| Cascade.RevealSingle | main.py:67-69 | a FOGGY square that does not open ends `uncover` with that square revealed alone |
| Cascade.StartCascade | main.py:67-69 | revealing a square that opens starts the cascade invariant with order [(i, j)] |
| Cascade.StepCascade | main.py:74-78 | the cascade invariant survives the recursive call on one neighbour |
| Cascade.FinishCascade | main.py:72-78 | once every neighbour has been swept, the cascade is a complete `Uncovered` |
| Cascade.UncoverKeepsMarks | main.py:64-67 | `uncover` never changes a NO_FOG or FOG_MARKED square |
| Cascade.UncoverIdempotent | main.py:64-67 | uncovering the same square a second time changes nothing and reveals nothing |
| Cascade.NoCascadeFromNumbered | main.py:67-69 | uncovering a FOGGY bomb or numbered square reveals it and changes nothing else |
| Cascade.CascadeRevealsNbors | main.py:72-78 | uncovering a FOGGY square that opens reveals every in-bounds neighbour that is not FOG_MARKED |
| Cascade.CascadeSparesBombs | main.py:67-78 | the only bomb `uncover` can reveal is the square it was called on |
| Cascade.UncoverDead | main.py:64-78 | on a game not yet lost, `uncover` loses it exactly when called on a FOGGY bomb |
| Cascade.UncoverKeepsDead | main.py:64-78 | a lost game stays lost after `uncover` |
| Cascade.UncoverDeterministic | main.py:64-78 | any two boards related to the same start by `Uncovered` are equal, so the visiting order does not affect the result |
| Cascade.FloodFillsMineFree | main.py:64-78 | on a bomb-free, all-FOGGY board, one `uncover` reveals every square and the game is won |
| Game.Field.Mark | main.py:80-85 | the new board is `MarkBoard` of the old one |
| Grid.Toggle | main.py:80-85 | NO_FOG stays NO_FOG; a FOGGY or FOG_MARKED square changes state |
| Grid.MarkEffect | main.py:80-85 | marking leaves a NO_FOG square alone, swaps FOGGY and FOG_MARKED at (i, j), and changes no other square |
| Grid.MarkTwice | main.py:80-85 | marking the same square twice restores the board |
| Grid.MarkKeepsDead | main.py:80-85 | marking never changes whether the game is lost |
| Game.Field.CheckWin | main.py:123-133 | the result is true exactly when no bomb is NO_FOG and no empty square is FOGGY |
| Game.Field.CheckDead | main.py:135-142 | the result is true exactly when some bomb is NO_FOG |
| Grid.WinIsNotDead | main.py:123-142 | a won board is never a lost one |
| Grid.FoggedBoard | main.py:42-43 | after `fog_up` the game is not lost, and it is won exactly when every square is a bomb |
| Grid.DefoggedBoard | main.py:45-46 | after `defog` the game is lost exactly when there is a bomb, and won exactly when it is not lost |

## Left out

- Game.Field.Randomize: the random draws are a parameter (`temp`). numpy's generator is not modelled, nor is the requirement that draws lie in [0, 100).
- Game.Field.Randomize: the float `p` is modelled as an exact `real`. Floating-point rounding of `p * 100` is not modelled.
- `print_board`, `print_col`, `get_col`, `Colors` and `main` are terminal I/O and the game loop. They are not modelled.
- Game.Field.Uncover, Game.Field.Mark: the model requires the coordinates to be in bounds. In Python a negative index wraps around to the far edge and a too-large one raises `IndexError`. Neither behaviour is modelled.
- Game.Field.Uncover: Python's recursion-depth limit on large boards is not modelled. The recursion is proved to terminate, but stack depth is not bounded.
- Game.Field.Uncover: the reveal order is returned as a ghost value for the proofs. `uncover` in `main.py` returns nothing.
- The grids are numpy float arrays holding 0, 1 and 2. They are modelled as the enumerations `Cell` and `Fog`. `main.py` never stores any other value in them.
- A bomb total and a count of unflagged bombs, which a fuller Minesweeper board would offer, are not part of `main.py` and are not modelled.
- Game.Field.constructor: the sizes are `nat`. In `main.py` a negative size makes `np.ones` raise `ValueError`; that error path is not modelled.
