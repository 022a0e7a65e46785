// The Minesweeper board as a value: the bomb layout, the fog over it, and the
// read-only questions asked of it (neighbour count, win, loss). The class in
// field.dfy keeps the same two grids in arrays; its Model() is one of these.
module Grid {

  /** What a square holds (EMPTY = 0, BOMB = 1 in the Python `Field`). */
  datatype Cell = Empty | Bomb

  /** What the player sees of a square (NO_FOG = 0, FOGGY = 1, FOG_MARKED = 2 in the Python `Field`). */
  datatype Fog = NoFog | Foggy | FogMarked

  /** A board of nRow by nCol squares: the bomb grid and the fog grid. */
  datatype Board = Board(nRow: nat, nCol: nat, cell: seq<seq<Cell>>, fog: seq<seq<Fog>>)
  {
    /** Both grids have exactly nRow rows of nCol squares. */
    predicate Valid() {
      |cell| == nRow && |fog| == nRow &&
      forall r :: 0 <= r < nRow ==> |cell[r]| == nCol && |fog[r]| == nCol
    }

    predicate InBounds(r: int, c: int) {
      0 <= r < nRow && 0 <= c < nCol
    }
  }

  /** A grid of nRow rows of nCol copies of x (what `x * np.ones(...)` builds). */
  function Uniform<T>(nRow: nat, nCol: nat, x: T): (g: seq<seq<T>>)
    ensures |g| == nRow
    ensures forall r :: 0 <= r < nRow ==> |g[r]| == nCol
    ensures forall r, c :: 0 <= r < nRow && 0 <= c < nCol ==> g[r][c] == x
  {
    seq(nRow, _ => seq(nCol, _ => x))
  }

  // ---------------------------------------------------------------------
  // Neighbours and the neighbour count
  // ---------------------------------------------------------------------

  /** (r, c) is one of the eight squares around (i, j). */
  predicate Adjacent(i: int, j: int, r: int, c: int) {
    (r, c) != (i, j) && i - 1 <= r <= i + 1 && j - 1 <= c <= j + 1
  }

  /** (r, c) is an in-bounds neighbour of (i, j) that holds a bomb. */
  predicate IsBombNbor(cell: seq<seq<Cell>>, i: int, j: int, r: int, c: int) {
    Adjacent(i, j, r, c) && 0 <= r < |cell| && 0 <= c < |cell[r]| && cell[r][c] == Bomb
  }

  /** 1 when the square at offset (di, dj) from (i, j) is a bomb neighbour, else 0. */
  function Hit(cell: seq<seq<Cell>>, i: int, j: int, di: int, dj: int): nat {
    if IsBombNbor(cell, i, j, i + di, j + dj) then 1 else 0
  }

  /** Bomb neighbours in row i + di with column offsets -1 <= dj < n. */
  function RowHits(cell: seq<seq<Cell>>, i: int, j: int, di: int, n: int): nat
    requires -1 <= n <= 2
    decreases n + 1
  {
    if n == -1 then 0 else RowHits(cell, i, j, di, n - 1) + Hit(cell, i, j, di, n - 1)
  }

  /** Bomb neighbours in the rows with offsets -1 <= di < m. */
  function Hits(cell: seq<seq<Cell>>, i: int, j: int, m: int): nat
    requires -1 <= m <= 2
    decreases m + 1
  {
    if m == -1 then 0 else Hits(cell, i, j, m - 1) + RowHits(cell, i, j, m - 1, 2)
  }

  /**
   * The number shown on square (i, j): the bombs among its in-bounds
   * 8-connected neighbours, summed row by row as `count_nbors` does.
   */
  function NborCount(cell: seq<seq<Cell>>, i: int, j: int): (n: nat)
    ensures n <= 8
  {
    Hits(cell, i, j, 2)
  }

  /** The set of bomb neighbours of (i, j): the reference meaning of NborCount. */
  function BombNbors(cell: seq<seq<Cell>>, i: int, j: int): set<(int, int)> {
    set r, c | i - 1 <= r <= i + 1 && j - 1 <= c <= j + 1 && IsBombNbor(cell, i, j, r, c) :: (r, c)
  }

  ghost function RowBombs(cell: seq<seq<Cell>>, i: int, j: int, di: int, n: int): set<(int, int)> {
    set r, c | r == i + di && j - 1 <= c < j + n && IsBombNbor(cell, i, j, r, c) :: (r, c)
  }

  ghost function PrefixBombs(cell: seq<seq<Cell>>, i: int, j: int, m: int): set<(int, int)> {
    set r, c | i - 1 <= r < i + m && j - 1 <= c <= j + 1 && IsBombNbor(cell, i, j, r, c) :: (r, c)
  }

  lemma {:induction false} RowHitsCard(cell: seq<seq<Cell>>, i: int, j: int, di: int, n: int)
    requires -1 <= n <= 2
    ensures |RowBombs(cell, i, j, di, n)| == RowHits(cell, i, j, di, n)
    decreases n + 1
  {
    if n == -1 {
      assert RowBombs(cell, i, j, di, n) == {};
    } else {
      RowHitsCard(cell, i, j, di, n - 1);
      var before, now := RowBombs(cell, i, j, di, n - 1), RowBombs(cell, i, j, di, n);
      var p := (i + di, j + n - 1);
      if IsBombNbor(cell, i, j, p.0, p.1) {
        assert now == before + {p};
        assert p !in before;
      } else {
        assert now == before;
      }
    }
  }

  lemma {:induction false} HitsCard(cell: seq<seq<Cell>>, i: int, j: int, m: int)
    requires -1 <= m <= 2
    ensures |PrefixBombs(cell, i, j, m)| == Hits(cell, i, j, m)
    decreases m + 1
  {
    if m == -1 {
      assert PrefixBombs(cell, i, j, m) == {};
    } else {
      HitsCard(cell, i, j, m - 1);
      RowHitsCard(cell, i, j, m - 1, 2);
      var before, row := PrefixBombs(cell, i, j, m - 1), RowBombs(cell, i, j, m - 1, 2);
      assert PrefixBombs(cell, i, j, m) == before + row;
      assert before * row == {};
    }
  }

  /** The neighbour count is exactly the number of in-bounds bomb neighbours. */
  lemma NborCountIsCard(cell: seq<seq<Cell>>, i: int, j: int)
    ensures NborCount(cell, i, j) == |BombNbors(cell, i, j)|
  {
    HitsCard(cell, i, j, 2);
    assert BombNbors(cell, i, j) == PrefixBombs(cell, i, j, 2);
  }

  /** A square counts 0 exactly when none of its in-bounds neighbours is a bomb. */
  lemma NborCountZero(cell: seq<seq<Cell>>, i: int, j: int)
    ensures NborCount(cell, i, j) == 0 <==> forall r, c :: !IsBombNbor(cell, i, j, r, c)
  {
    NborCountIsCard(cell, i, j);
    if r, c :| IsBombNbor(cell, i, j, r, c) {
      assert (r, c) in BombNbors(cell, i, j);
    }
  }

  /** A square whose number is 0 and that is itself empty: revealing it cascades. */
  predicate Opens(cell: seq<seq<Cell>>, r: int, c: int)
    requires 0 <= r < |cell| && 0 <= c < |cell[r]|
  {
    cell[r][c] == Empty && NborCount(cell, r, c) == 0
  }

  /** No neighbour of a square that opens is a bomb. */
  lemma OpensSparesNbors(cell: seq<seq<Cell>>, i: int, j: int, r: int, c: int)
    requires 0 <= i < |cell| && 0 <= j < |cell[i]| && Opens(cell, i, j)
    requires Adjacent(i, j, r, c) && 0 <= r < |cell| && 0 <= c < |cell[r]|
    ensures cell[r][c] == Empty
  {
    NborCountZero(cell, i, j);
    assert !IsBombNbor(cell, i, j, r, c);
  }

  /** On a board with no bombs every square counts 0. */
  lemma NoBombsNoCount(cell: seq<seq<Cell>>, i: int, j: int)
    requires forall r, c :: 0 <= r < |cell| && 0 <= c < |cell[r]| ==> cell[r][c] == Empty
    ensures NborCount(cell, i, j) == 0
  {
    NborCountZero(cell, i, j);
  }

  // ---------------------------------------------------------------------
  // End of game
  // ---------------------------------------------------------------------

  /** Square (r, c) does not stand in the way of a win: no uncovered bomb, no FOGGY empty square. */
  predicate WinsAt(b: Board, r: int, c: int)
    requires b.Valid() && b.InBounds(r, c)
  {
    (b.cell[r][c] == Bomb ==> b.fog[r][c] != NoFog) && (b.cell[r][c] == Empty ==> b.fog[r][c] != Foggy)
  }

  /**
   * `check_win`: every square passes WinsAt. A FOG_MARKED empty square does
   * not block the win.
   */
  ghost predicate IsWin(b: Board)
    requires b.Valid()
  {
    forall r, c :: b.InBounds(r, c) ==> WinsAt(b, r, c)
  }

  /** `check_dead`: some bomb is uncovered. */
  ghost predicate IsDead(b: Board)
    requires b.Valid()
  {
    exists r, c :: b.InBounds(r, c) && b.cell[r][c] == Bomb && b.fog[r][c] == NoFog
  }

  /** A won board is never a lost one. */
  lemma WinIsNotDead(b: Board)
    requires b.Valid() && IsWin(b)
    ensures !IsDead(b)
  {
  }

  /**
   * After `fog_up` (every square FOGGY) the game is not lost, and it is won
   * exactly when there is no empty square at all.
   */
  lemma FoggedBoard(b: Board)
    requires b.Valid() && b.fog == Uniform(b.nRow, b.nCol, Foggy)
    ensures !IsDead(b)
    ensures IsWin(b) <==> forall r, c :: b.InBounds(r, c) ==> b.cell[r][c] == Bomb
  {
    if IsWin(b) {
      forall r, c | b.InBounds(r, c) ensures b.cell[r][c] == Bomb {
        assert b.fog[r][c] == Foggy;
      }
    }
  }

  /**
   * After `defog` (every square NO_FOG) the game is lost exactly when there is
   * a bomb, and won exactly when there is none.
   */
  lemma DefoggedBoard(b: Board)
    requires b.Valid() && b.fog == Uniform(b.nRow, b.nCol, NoFog)
    ensures IsDead(b) <==> exists r, c :: b.InBounds(r, c) && b.cell[r][c] == Bomb
    ensures IsWin(b) <==> !IsDead(b)
  {
    if r, c :| b.InBounds(r, c) && b.cell[r][c] == Bomb {
      assert b.fog[r][c] == NoFog;
    }
  }

  // ---------------------------------------------------------------------
  // Flags
  // ---------------------------------------------------------------------

  /** `mark` on one square: NO_FOG stays, FOGGY and FOG_MARKED swap. */
  function Toggle(f: Fog): (g: Fog)
    ensures g == NoFog <==> f == NoFog
    ensures f != NoFog ==> g != f
  {
    match f
    case NoFog => NoFog
    case FogMarked => Foggy
    case Foggy => FogMarked
  }

  /** The board after `mark(i, j)`. */
  function MarkBoard(b: Board, i: int, j: int): (b': Board)
    requires b.Valid() && b.InBounds(i, j)
    ensures b'.Valid() && b'.nRow == b.nRow && b'.nCol == b.nCol && b'.cell == b.cell
  {
    b.(fog := b.fog[i := b.fog[i][j := Toggle(b.fog[i][j])]])
  }

  /**
   * `mark` leaves a NO_FOG square alone, swaps FOGGY and FOG_MARKED at (i, j),
   * and changes no other square.
   */
  lemma MarkEffect(b: Board, i: int, j: int)
    requires b.Valid() && b.InBounds(i, j)
    ensures b.fog[i][j] == NoFog ==> MarkBoard(b, i, j) == b
    ensures b.fog[i][j] == Foggy ==> MarkBoard(b, i, j).fog[i][j] == FogMarked
    ensures b.fog[i][j] == FogMarked ==> MarkBoard(b, i, j).fog[i][j] == Foggy
    ensures forall r, c :: b.InBounds(r, c) && (r, c) != (i, j) ==>
              MarkBoard(b, i, j).fog[r][c] == b.fog[r][c]
  {
    if b.fog[i][j] == NoFog {
      assert b.fog[i][j := NoFog] == b.fog[i];
    }
  }

  /** Marking the same square twice restores the board. */
  lemma MarkTwice(b: Board, i: int, j: int)
    requires b.Valid() && b.InBounds(i, j)
    ensures MarkBoard(MarkBoard(b, i, j), i, j) == b
  {
    var once := MarkBoard(b, i, j);
    assert Toggle(Toggle(b.fog[i][j])) == b.fog[i][j];
    assert once.fog[i][j := Toggle(once.fog[i][j])] == b.fog[i];
  }

  /** Flags never change whether the game is lost. */
  lemma MarkKeepsDead(b: Board, i: int, j: int)
    requires b.Valid() && b.InBounds(i, j)
    ensures IsDead(MarkBoard(b, i, j)) == IsDead(b)
  {
    var m := MarkBoard(b, i, j);
    MarkEffect(b, i, j);
    if IsDead(b) {
      var r, c :| b.InBounds(r, c) && b.cell[r][c] == Bomb && b.fog[r][c] == NoFog;
      assert m.fog[r][c] == NoFog;
    }
    if IsDead(m) {
      var r, c :| m.InBounds(r, c) && m.cell[r][c] == Bomb && m.fog[r][c] == NoFog;
      assert b.fog[r][c] == NoFog;
    }
  }

  // ---------------------------------------------------------------------
  // Bomb placement
  // ---------------------------------------------------------------------

  /**
   * The rule `randomize` applies to each square, given the integer `t` that
   * numpy drew for it: BOMB when t <= p * 100, EMPTY otherwise.
   */
  function Placed(t: int, p: real): Cell {
    if t as real > p * 100.0 then Empty else Bomb
  }

  /** With p = 1 every draw in [0, 100) gives a bomb. */
  lemma PlacedAll(t: int)
    requires 0 <= t < 100
    ensures Placed(t, 1.0) == Bomb
  {
  }

  /** With p = 0 the draw 0 still gives a bomb, and no other draw does. */
  lemma PlacedAtZero()
    ensures Placed(0, 0.0) == Bomb
    ensures forall t :: 0 < t < 100 ==> Placed(t, 0.0) == Empty
  {
  }

  /** The draws 0, 1, ..., k - 1. */
  function Draws(k: int): set<int>
    decreases k
  {
    if k <= 0 then {} else Draws(k - 1) + {k - 1}
  }

  lemma {:induction false} DrawsMember(k: int, t: int)
    ensures t in Draws(k) <==> 0 <= t < k
    decreases k
  {
    if k > 0 {
      DrawsMember(k - 1, t);
    }
  }

  /** The draws in [0, 100) for which `randomize` places a bomb. */
  function BombDraws(p: real): set<int> {
    set t | 0 <= t < 100 && Placed(t, p) == Bomb
  }

  /** n limited to the range [0, 100]. */
  function Clamp100(n: int): int {
    if n < 0 then 0 else if n > 100 then 100 else n
  }

  lemma {:induction false} DrawsCard(k: nat)
    ensures |Draws(k)| == k
  {
    if k > 0 {
      DrawsCard(k - 1);
      DrawsMember(k - 1, k - 1);
    }
  }

  /**
   * Out of the 100 equally likely draws, exactly clamp(floor(100 p) + 1) give
   * a bomb, so a square holds a bomb with probability
   * min(100, floor(100 p) + 1) / 100 for p >= 0, not p.
   */
  lemma BombDrawsCount(p: real)
    ensures |BombDraws(p)| == Clamp100((p * 100.0).Floor + 1)
  {
    var k := Clamp100((p * 100.0).Floor + 1);
    forall t ensures t in BombDraws(p) <==> t in Draws(k) {
      assert t as real <= p * 100.0 <==> t <= (p * 100.0).Floor;
      DrawsMember(k, t);
    }
    assert BombDraws(p) == Draws(k);
    DrawsCard(k);
  }
}
