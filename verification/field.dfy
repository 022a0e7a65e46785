// The `Field` class: the bomb grid and the fog grid as two arrays that its
// methods update in place, each method proved against the board value of
// board.dfy and the uncover relation of cascade.dfy.
module Game {
  import opened Grid
  import opened Cascade

  /** The contents of a 2-D array, row by row. */
  ghost function Snapshot<T>(a: array2<T>): (s: seq<seq<T>>)
    reads a
    ensures |s| == a.Length0
    ensures forall r :: 0 <= r < a.Length0 ==> |s[r]| == a.Length1
    ensures forall r, c :: 0 <= r < a.Length0 && 0 <= c < a.Length1 ==> s[r][c] == a[r, c]
  {
    seq(a.Length0, r requires 0 <= r < a.Length0 reads a =>
      seq(a.Length1, c requires 0 <= c < a.Length1 reads a => a[r, c]))
  }

  class Field {
    const nRow: nat
    const nCol: nat
    var cell: array2<Cell>
    var fog: array2<Fog>

    /** Both arrays are nRow by nCol. */
    ghost predicate Valid()
      reads this
    {
      cell.Length0 == nRow && cell.Length1 == nCol && fog.Length0 == nRow && fog.Length1 == nCol
    }

    /** The board the two arrays hold. */
    ghost function Model(): (b: Board)
      requires Valid()
      reads this, cell, fog
      ensures b.Valid() && b.nRow == nRow && b.nCol == nCol
    {
      Board(nRow, nCol, Snapshot(cell), Snapshot(fog))
    }

    /** `__init__`: every square EMPTY and FOGGY. */
    constructor (nRow: nat, nCol: nat)
      ensures Valid() && fresh(cell) && fresh(fog)
      ensures Model() == Board(nRow, nCol, Uniform(nRow, nCol, Empty), Uniform(nRow, nCol, Foggy))
    {
      this.nRow, this.nCol := nRow, nCol;
      cell := new Cell[nRow, nCol]((_, _) => Empty);
      fog := new Fog[nRow, nCol]((_, _) => Foggy);
      new;
      SnapshotUniform(cell, Empty);
      SnapshotUniform(fog, Foggy);
    }

    /** `fog_up`: a fresh fog grid with every square FOGGY; the bombs stay. */
    method FogUp()
      requires Valid()
      modifies this
      ensures Valid() && fresh(fog) && cell == old(cell)
      ensures Model() == old(Model()).(fog := Uniform(nRow, nCol, Foggy))
    {
      fog := new Fog[nRow, nCol]((_, _) => Foggy);
      SnapshotUniform(fog, Foggy);
    }

    /** `defog`: a fresh fog grid with every square NO_FOG; the bombs stay. */
    method Defog()
      requires Valid()
      modifies this
      ensures Valid() && fresh(fog) && cell == old(cell)
      ensures Model() == old(Model()).(fog := Uniform(nRow, nCol, NoFog))
    {
      fog := new Fog[nRow, nCol]((_, _) => NoFog);
      SnapshotUniform(fog, NoFog);
    }

    /**
     * `randomize` with the random draws `temp` given: numpy's masked
     * assignments, first EMPTY where temp > p * 100, then BOMB where
     * temp <= p * 100. The fog is not touched.
     */
    method Randomize(temp: seq<seq<int>>, p: real)
      requires Valid()
      requires |temp| == nRow && forall r :: 0 <= r < nRow ==> |temp[r]| == nCol
      modifies cell
      ensures Valid()
      ensures Model().fog == old(Model()).fog
      ensures forall r, c :: 0 <= r < nRow && 0 <= c < nCol ==> Model().cell[r][c] == Placed(temp[r][c], p)
    {
      forall r, c | 0 <= r < nRow && 0 <= c < nCol && temp[r][c] as real > p * 100.0 {
        cell[r, c] := Empty;
      }
      forall r, c | 0 <= r < nRow && 0 <= c < nCol && temp[r][c] as real <= p * 100.0 {
        cell[r, c] := Bomb;
      }
    }

    /** `count_nbors(i, j)`: the bombs among the in-bounds neighbours of (i, j). */
    method CountNbors(i: int, j: int) returns (count: nat)
      requires Valid()
      ensures count == NborCount(Model().cell, i, j)
    {
      count := 0;
      for di := -1 to 2
        invariant count == Hits(Model().cell, i, j, di)
      {
        var k := CountRow(i, j, di);
        count := count + k;
      }
    }

    /**
     * The inner loop of `count_nbors(i, j)`: the bombs among the in-bounds
     * neighbours in row i + di, skipping (i, j) itself.
     */
    method CountRow(i: int, j: int, di: int) returns (count: nat)
      requires Valid() && -1 <= di <= 1
      ensures count == RowHits(Model().cell, i, j, di, 2)
    {
      ghost var cs := Model().cell;
      count := 0;
      for dj := -1 to 2
        invariant count == RowHits(cs, i, j, di, dj)
      {
        var r, c := i + di, j + dj;
        // the two `continue` guards of the Python `count_nbors`, then the bomb test
        if !(di == 0 && dj == 0) && !(r < 0 || c < 0 || r >= nRow || c >= nCol) && cell[r, c] == Bomb {
          count := count + 1;
        }
        assert count == RowHits(cs, i, j, di, dj) + Hit(cs, i, j, di, dj);
      }
    }

    /**
     * `uncover(i, j)`: reveal a FOGGY square and, when it opens, uncover
     * every in-bounds neighbour. Returns, as a ghost, the order in which the
     * squares were revealed.
     */
    method Uncover(i: int, j: int) returns (ghost order: seq<(int, int)>)
      requires Valid() && 0 <= i < nRow && 0 <= j < nCol
      modifies fog
      ensures Valid() && SameLayout(old(Model()), Model())
      ensures Uncovered(old(Model()), Model(), i, j, order)
      decreases Hidden(Model()), 3
    {
      ghost var b0 := Model();
      if fog[i, j] == NoFog {
        return [];
      }
      if fog[i, j] == FogMarked {
        return [];
      }
      fog[i, j] := NoFog;
      order := [(i, j)];
      assert RevealedOnly(b0, Model(), i, j);
      if cell[i, j] == Bomb {
        RevealSingle(b0, Model(), i, j);
        return;
      }
      var n := CountNbors(i, j);
      if n > 0 {
        RevealSingle(b0, Model(), i, j);
        return;
      }
      StartCascade(b0, Model(), i, j);
      order := UncoverNbors(i, j, b0);
    }

    /**
     * The neighbour loops of `uncover(i, j)`, entered once (i, j), FOGGY in
     * b0, has been revealed and opens: uncover every in-bounds neighbour,
     * row offset by row offset.
     */
    method UncoverNbors(i: int, j: int, ghost b0: Board) returns (ghost order: seq<(int, int)>)
      requires Valid() && 0 <= i < nRow && 0 <= j < nCol
      requires SameLayout(b0, Model()) && b0.fog[i][j] == Foggy && Opens(b0.cell, i, j)
      requires Cascading(b0, Model(), i, j, [(i, j)]) && Swept(Model(), i, j, -1, -1)
      modifies fog
      ensures Valid() && SameLayout(b0, Model())
      ensures Uncovered(b0, Model(), i, j, order)
      decreases Hidden(b0), 2
    {
      order := [(i, j)];
      for di := -1 to 2
        invariant SameLayout(b0, Model())
        invariant Cascading(b0, Model(), i, j, order) && Swept(Model(), i, j, di, -1)
      {
        order := UncoverRow(i, j, di, b0, order);
        SweptNextRow(Model(), i, j, di);
      }
      FinishCascade(b0, Model(), i, j, order);
    }

    /** The inner loop of `uncover(i, j)`: the neighbours in row i + di. */
    method UncoverRow(i: int, j: int, di: int, ghost b0: Board, ghost order0: seq<(int, int)>)
      returns (ghost order: seq<(int, int)>)
      requires Valid() && 0 <= i < nRow && 0 <= j < nCol && -1 <= di <= 1
      requires SameLayout(b0, Model()) && b0.fog[i][j] == Foggy && Opens(b0.cell, i, j)
      requires Cascading(b0, Model(), i, j, order0) && Swept(Model(), i, j, di, -1)
      modifies fog
      ensures Valid() && SameLayout(b0, Model())
      ensures Cascading(b0, Model(), i, j, order) && Swept(Model(), i, j, di, 2)
      decreases Hidden(b0), 1
    {
      order := order0;
      for dj := -1 to 2
        invariant SameLayout(b0, Model())
        invariant Cascading(b0, Model(), i, j, order) && Swept(Model(), i, j, di, dj)
      {
        order := UncoverNbor(i, j, di, dj, b0, order);
      }
    }

    /**
     * One pass of the inner loop of `uncover(i, j)`: skip the centre and
     * out-of-bounds offsets, otherwise uncover the neighbour (i + di, j + dj).
     */
    method UncoverNbor(i: int, j: int, di: int, dj: int, ghost b0: Board, ghost order0: seq<(int, int)>)
      returns (ghost order: seq<(int, int)>)
      requires Valid() && 0 <= i < nRow && 0 <= j < nCol && -1 <= di <= 1 && -1 <= dj <= 1
      requires SameLayout(b0, Model()) && b0.fog[i][j] == Foggy && Opens(b0.cell, i, j)
      requires Cascading(b0, Model(), i, j, order0) && Swept(Model(), i, j, di, dj)
      modifies fog
      ensures Valid() && SameLayout(b0, Model())
      ensures Cascading(b0, Model(), i, j, order) && Swept(Model(), i, j, di, dj + 1)
      decreases Hidden(b0), 0
    {
      order := order0;
      var r, c := i + di, j + dj;
      // the two `continue` guards of the Python `uncover`: the centre, then an out-of-bounds square
      if (di == 0 && dj == 0) || r < 0 || c < 0 || r >= nRow || c >= nCol {
        SweptSkip(Model(), i, j, di, dj);
      } else {
        ghost var bm := Model();
        RevealShrinks(b0, bm, i, j);
        ghost var sub := Uncover(r, c);
        StepCascade(b0, bm, Model(), i, j, order, di, dj, r, c, sub);
        order := order + sub;
      }
    }

    /** `mark(i, j)`: toggle the flag on a square that is not revealed. */
    method Mark(i: int, j: int)
      requires Valid() && 0 <= i < nRow && 0 <= j < nCol
      modifies fog
      ensures Valid() && Model() == MarkBoard(old(Model()), i, j)
    {
      ghost var b0 := Model();
      if fog[i, j] == NoFog {
        MarkEffect(b0, i, j);
        return;
      }
      if fog[i, j] == FogMarked {
        fog[i, j] := Foggy;
      } else {
        fog[i, j] := FogMarked;
      }
      SnapshotSet(fog, old(Snapshot(fog)), i, j);
    }

    /** `check_win`: scans every square, clearing `win` on an uncovered bomb or a FOGGY empty square. */
    method CheckWin() returns (win: bool)
      requires Valid()
      ensures win == IsWin(Model())
    {
      ghost var b := Model();
      win := true;
      for r := 0 to nRow
        invariant win == forall r', c' :: 0 <= r' < r && 0 <= c' < nCol ==> WinsAt(b, r', c')
      {
        for c := 0 to nCol
          invariant win == forall r', c' :: ((0 <= r' < r && 0 <= c' < nCol) || (r' == r && 0 <= c' < c)) ==>
                             WinsAt(b, r', c')
        {
          var x := cell[r, c];
          var f := fog[r, c];
          if x == Bomb {
            if f == NoFog {
              win := false;
            }
          } else if x == Empty {
            if f == Foggy {
              win := false;
            }
          }
          assert WinsAt(b, r, c) <==> (x == Bomb ==> f != NoFog) && (x == Empty ==> f != Foggy);
        }
      }
    }

    /** `check_dead`: whether some bomb is uncovered. */
    method CheckDead() returns (dead: bool)
      requires Valid()
      ensures dead == IsDead(Model())
    {
      ghost var b := Model();
      for r := 0 to nRow
        invariant forall r', c' :: 0 <= r' < r && 0 <= c' < nCol ==> !(b.cell[r'][c'] == Bomb && b.fog[r'][c'] == NoFog)
      {
        for c := 0 to nCol
          invariant forall r', c' :: ((0 <= r' < r && 0 <= c' < nCol) || (r' == r && 0 <= c' < c)) ==>
                      !(b.cell[r'][c'] == Bomb && b.fog[r'][c'] == NoFog)
        {
          var x := cell[r, c];
          var f := fog[r, c];
          if x == Bomb {
            if f == NoFog {
              return true;
            }
          }
        }
      }
      return false;
    }
  }

  lemma SnapshotUniform<T>(a: array2<T>, x: T)
    requires forall r, c :: 0 <= r < a.Length0 && 0 <= c < a.Length1 ==> a[r, c] == x
    ensures Snapshot(a) == Uniform(a.Length0, a.Length1, x)
  {
    var s, u := Snapshot(a), Uniform(a.Length0, a.Length1, x);
    forall r | 0 <= r < a.Length0 ensures s[r] == u[r] {
    }
  }

  lemma SnapshotSet<T>(a: array2<T>, before: seq<seq<T>>, i: int, j: int)
    requires 0 <= i < a.Length0 && 0 <= j < a.Length1
    requires |before| == a.Length0 && forall r :: 0 <= r < a.Length0 ==> |before[r]| == a.Length1
    requires forall r, c :: 0 <= r < a.Length0 && 0 <= c < a.Length1 && (r, c) != (i, j) ==> a[r, c] == before[r][c]
    ensures Snapshot(a) == before[i := before[i][j := a[i, j]]]
  {
    var s, u := Snapshot(a), before[i := before[i][j := a[i, j]]];
    forall r | 0 <= r < a.Length0 ensures s[r] == u[r] {
    }
  }
}
