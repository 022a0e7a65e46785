// What one call of `uncover(i, j)` does to the fog, stated as a relation
// between the board before (b0) and after (b1), together with the facts the
// recursive flood fill needs on its way and the consequences for the game.
module Cascade {
  import opened Grid

  /** b1 differs from b0 at most in its fog. */
  predicate SameLayout(b0: Board, b1: Board) {
    b0.Valid() && b1.Valid() && b1.nRow == b0.nRow && b1.nCol == b0.nCol && b1.cell == b0.cell
  }

  /** Square (r, c) went from FOGGY in b0 to NO_FOG in b1. */
  predicate NewlyRevealed(b0: Board, b1: Board, r: int, c: int)
    requires SameLayout(b0, b1)
  {
    b0.InBounds(r, c) && b0.fog[r][c] == Foggy && b1.fog[r][c] == NoFog
  }

  /** The only change from b0 to b1 is FOGGY -> NO_FOG. */
  ghost predicate OnlyReveals(b0: Board, b1: Board)
    requires SameLayout(b0, b1)
  {
    forall r, c :: b0.InBounds(r, c) ==> b1.fog[r][c] == b0.fog[r][c] || NewlyRevealed(b0, b1, r, c)
  }

  /** Square (r, c) and the eight around it: none of the in-bounds ones is FOGGY. */
  ghost predicate NoHiddenNbor(b: Board, r: int, c: int)
    requires b.Valid()
  {
    forall r2, c2 :: b.InBounds(r2, c2) && Adjacent(r, c, r2, c2) ==> b.fog[r2][c2] != Foggy
  }

  predicate InGrid(cell: seq<seq<Cell>>, p: (int, int)) {
    0 <= p.0 < |cell| && 0 <= p.1 < |cell[p.0]|
  }

  /** order[k] is a neighbour of an earlier square of order that opens. */
  ghost predicate Supported(cell: seq<seq<Cell>>, order: seq<(int, int)>, k: int)
    requires 0 <= k < |order|
  {
    exists m :: 0 <= m < k && InGrid(cell, order[m]) && Opens(cell, order[m].0, order[m].1) &&
      Adjacent(order[m].0, order[m].1, order[k].0, order[k].1)
  }

  /**
   * `order` lists the squares revealed from b0 to b1, each once, in an order
   * in which every square after the first is a neighbour of an earlier one
   * that opens: the cascade only spreads from zero-count empty squares.
   */
  ghost predicate RevealOrder(b0: Board, b1: Board, order: seq<(int, int)>)
    requires SameLayout(b0, b1)
  {
    (forall k :: 0 <= k < |order| ==> NewlyRevealed(b0, b1, order[k].0, order[k].1)) &&
    (forall r, c :: NewlyRevealed(b0, b1, r, c) ==> (r, c) in order) &&
    (forall k, m :: 0 <= k < m < |order| ==> order[k] != order[m]) &&
    (forall k :: 0 < k < |order| ==> Supported(b0.cell, order, k))
  }

  /** Every square revealed from b0 to b1 that opens has no FOGGY neighbour left. */
  ghost predicate Closed(b0: Board, b1: Board)
    requires SameLayout(b0, b1)
  {
    forall r, c :: NewlyRevealed(b0, b1, r, c) && Opens(b0.cell, r, c) ==> NoHiddenNbor(b1, r, c)
  }

  /**
   * b1 is what `uncover(i, j)` leaves of b0, and `order` is the order in which
   * it revealed squares: a NO_FOG or FOG_MARKED square is left alone; a FOGGY
   * one is revealed first; the cascade spreads only from squares that open,
   * and stops only when every square it revealed that opens has no FOGGY
   * neighbour.
   */
  ghost predicate Uncovered(b0: Board, b1: Board, i: int, j: int, order: seq<(int, int)>)
    requires SameLayout(b0, b1) && b0.InBounds(i, j)
  {
    OnlyReveals(b0, b1) && RevealOrder(b0, b1, order) && Closed(b0, b1) &&
    (b0.fog[i][j] != Foggy ==> b1 == b0 && order == []) &&
    (b0.fog[i][j] == Foggy ==> |order| > 0 && order[0] == (i, j))
  }

  // ---------------------------------------------------------------------
  // The recursion, step by step
  // ---------------------------------------------------------------------

  /** The FOGGY squares of b: the measure that every recursive call shrinks. */
  ghost function Hidden(b: Board): set<(int, int)>
    requires b.Valid()
  {
    set r, c | 0 <= r < b.nRow && 0 <= c < b.nCol && b.fog[r][c] == Foggy :: (r, c)
  }

  /** Revealing at least one square and changing nothing else shrinks Hidden. */
  lemma RevealShrinks(b0: Board, b: Board, i: int, j: int)
    requires SameLayout(b0, b) && OnlyReveals(b0, b) && NewlyRevealed(b0, b, i, j)
    ensures Hidden(b) < Hidden(b0)
  {
    forall p | p in Hidden(b) ensures p in Hidden(b0) {
      assert b.fog[p.0][p.1] == Foggy;
    }
    assert (i, j) in Hidden(b0) - Hidden(b);
  }

  /** b1 is b0 with square (i, j) set to NO_FOG and nothing else changed. */
  ghost predicate RevealedOnly(b0: Board, b1: Board, i: int, j: int)
    requires SameLayout(b0, b1) && b0.InBounds(i, j)
  {
    b1.fog[i][j] == NoFog &&
    forall r, c :: b0.InBounds(r, c) && (r, c) != (i, j) ==> b1.fog[r][c] == b0.fog[r][c]
  }

  /** A FOGGY square that does not open: revealing it alone is the whole of `uncover`. */
  lemma RevealSingle(b0: Board, b1: Board, i: int, j: int)
    requires SameLayout(b0, b1) && b0.InBounds(i, j) && b0.fog[i][j] == Foggy
    requires RevealedOnly(b0, b1, i, j) && !Opens(b0.cell, i, j)
    ensures Uncovered(b0, b1, i, j, [(i, j)])
  {
    forall r, c | NewlyRevealed(b0, b1, r, c) ensures (r, c) == (i, j) {
    }
  }

  /**
   * In the middle of the cascade from (i, j): only reveals so far, `order` is
   * a reveal order starting at (i, j), and every revealed square that opens,
   * other than (i, j) itself, is already settled.
   */
  ghost predicate Cascading(b0: Board, b: Board, i: int, j: int, order: seq<(int, int)>)
    requires SameLayout(b0, b)
  {
    OnlyReveals(b0, b) && RevealOrder(b0, b, order) && |order| > 0 && order[0] == (i, j) &&
    forall r, c :: NewlyRevealed(b0, b, r, c) && (r, c) != (i, j) && Opens(b0.cell, r, c) ==>
      NoHiddenNbor(b, r, c)
  }

  /** The neighbours of (i, j) before offset (m, n), in row-major order, are no longer FOGGY. */
  ghost predicate Swept(b: Board, i: int, j: int, m: int, n: int)
    requires b.Valid()
  {
    forall r, c :: b.InBounds(r, c) && Adjacent(i, j, r, c) && (r < i + m || (r == i + m && c < j + n)) ==>
      b.fog[r][c] != Foggy
  }

  lemma StartCascade(b0: Board, b1: Board, i: int, j: int)
    requires SameLayout(b0, b1) && b0.InBounds(i, j) && b0.fog[i][j] == Foggy
    requires RevealedOnly(b0, b1, i, j)
    ensures Cascading(b0, b1, i, j, [(i, j)]) && Swept(b1, i, j, -1, -1)
  {
    forall r, c | NewlyRevealed(b0, b1, r, c) ensures (r, c) == (i, j) {
    }
  }

  /** Skipping offset (m, n) when it is the centre or out of bounds. */
  lemma SweptSkip(b: Board, i: int, j: int, m: int, n: int)
    requires b.Valid() && Swept(b, i, j, m, n)
    requires !(b.InBounds(i + m, j + n) && Adjacent(i, j, i + m, j + n))
    ensures Swept(b, i, j, m, n + 1)
  {
  }

  /** Finishing row offset m moves on to the start of row offset m + 1. */
  lemma SweptNextRow(b: Board, i: int, j: int, m: int)
    requires b.Valid() && Swept(b, i, j, m, 2)
    ensures Swept(b, i, j, m + 1, -1)
  {
  }

  /** OnlyReveals composes. */
  lemma OnlyRevealsTrans(b0: Board, b1: Board, b2: Board)
    requires SameLayout(b0, b1) && SameLayout(b1, b2)
    requires OnlyReveals(b0, b1) && OnlyReveals(b1, b2)
    ensures SameLayout(b0, b2) && OnlyReveals(b0, b2)
  {
  }

  /** The squares of order + sub are exactly those revealed from b0 to b2. */
  lemma StepListed(b0: Board, bm: Board, b2: Board, order: seq<(int, int)>, sub: seq<(int, int)>)
    requires SameLayout(b0, bm) && SameLayout(bm, b2)
    requires OnlyReveals(b0, bm) && OnlyReveals(bm, b2)
    requires RevealOrder(b0, bm, order) && RevealOrder(bm, b2, sub)
    ensures SameLayout(b0, b2)
    ensures forall k :: 0 <= k < |order + sub| ==> NewlyRevealed(b0, b2, (order + sub)[k].0, (order + sub)[k].1)
    ensures forall p, q :: NewlyRevealed(b0, b2, p, q) ==> (p, q) in order + sub
  {
    var all := order + sub;
    forall k | 0 <= k < |all| ensures NewlyRevealed(b0, b2, all[k].0, all[k].1) {
      if k < |order| {
        assert NewlyRevealed(b0, bm, order[k].0, order[k].1);
      } else {
        assert NewlyRevealed(bm, b2, sub[k - |order|].0, sub[k - |order|].1);
      }
    }
    forall p, q | NewlyRevealed(b0, b2, p, q) ensures (p, q) in all {
      if bm.fog[p][q] == NoFog {
        assert NewlyRevealed(b0, bm, p, q);
        assert (p, q) in order;
      } else {
        assert NewlyRevealed(bm, b2, p, q);
        assert (p, q) in sub;
      }
    }
  }

  /** No square appears twice in order + sub: sub only reveals squares still FOGGY in bm. */
  lemma StepDistinct(b0: Board, bm: Board, b2: Board, order: seq<(int, int)>, sub: seq<(int, int)>)
    requires SameLayout(b0, bm) && SameLayout(bm, b2)
    requires RevealOrder(b0, bm, order) && RevealOrder(bm, b2, sub)
    ensures forall k, m :: 0 <= k < m < |order + sub| ==> (order + sub)[k] != (order + sub)[m]
  {
    var all := order + sub;
    forall k, m | 0 <= k < m < |all| ensures all[k] != all[m] {
      if m >= |order| && k < |order| {
        assert NewlyRevealed(b0, bm, order[k].0, order[k].1);
        assert NewlyRevealed(bm, b2, sub[m - |order|].0, sub[m - |order|].1);
      } else if k >= |order| {
        assert all[k] == sub[k - |order|] && all[m] == sub[m - |order|];
      }
    }
  }

  /** Every square of order + sub after the first has an earlier neighbour that opens. */
  lemma StepSupported(cell: seq<seq<Cell>>, i: int, j: int, order: seq<(int, int)>,
                      r: int, c: int, sub: seq<(int, int)>)
    requires 0 <= i < |cell| && 0 <= j < |cell[i]| && Opens(cell, i, j)
    requires |order| > 0 && order[0] == (i, j) && Adjacent(i, j, r, c)
    requires forall k :: 0 < k < |order| ==> Supported(cell, order, k)
    requires forall k :: 0 < k < |sub| ==> Supported(cell, sub, k)
    requires sub != [] ==> sub[0] == (r, c)
    ensures forall k :: 0 < k < |order + sub| ==> Supported(cell, order + sub, k)
  {
    var all := order + sub;
    forall k | 0 < k < |all| ensures Supported(cell, all, k) {
      if k < |order| {
        assert Supported(cell, order, k);
        var m :| 0 <= m < k && InGrid(cell, order[m]) && Opens(cell, order[m].0, order[m].1) &&
          Adjacent(order[m].0, order[m].1, order[k].0, order[k].1);
        assert all[m] == order[m] && all[k] == order[k];
      } else if k == |order| {
        assert all[k] == sub[0] == (r, c);
        assert all[0] == (i, j);
        assert InGrid(cell, all[0]);
      } else {
        var k' := k - |order|;
        assert Supported(cell, sub, k');
        var m :| 0 <= m < k' && InGrid(cell, sub[m]) && Opens(cell, sub[m].0, sub[m].1) &&
          Adjacent(sub[m].0, sub[m].1, sub[k'].0, sub[k'].1);
        assert all[m + |order|] == sub[m] && all[k] == sub[k'];
      }
    }
  }

  /** What the recursive call on neighbour (r, c) adds to the cascade from (i, j). */
  lemma StepOrder(b0: Board, bm: Board, b2: Board, i: int, j: int, order: seq<(int, int)>,
                  r: int, c: int, sub: seq<(int, int)>)
    requires SameLayout(b0, bm) && SameLayout(bm, b2)
    requires b0.InBounds(i, j) && Opens(b0.cell, i, j)
    requires Cascading(b0, bm, i, j, order)
    requires b0.InBounds(r, c) && Adjacent(i, j, r, c)
    requires Uncovered(bm, b2, r, c, sub)
    ensures SameLayout(b0, b2) && RevealOrder(b0, b2, order + sub)
  {
    StepListed(b0, bm, b2, order, sub);
    StepDistinct(b0, bm, b2, order, sub);
    StepSupported(b0.cell, i, j, order, r, c, sub);
  }

  /** Squares settled before the recursive call stay settled; the call settles its own. */
  lemma StepSettled(b0: Board, bm: Board, b2: Board, i: int, j: int, r: int, c: int, sub: seq<(int, int)>)
    requires SameLayout(b0, bm) && SameLayout(bm, b2) && b0.InBounds(r, c)
    requires OnlyReveals(b0, bm) && Uncovered(bm, b2, r, c, sub)
    requires forall p, q :: NewlyRevealed(b0, bm, p, q) && (p, q) != (i, j) && Opens(b0.cell, p, q) ==>
               NoHiddenNbor(bm, p, q)
    ensures SameLayout(b0, b2)
    ensures forall p, q :: NewlyRevealed(b0, b2, p, q) && (p, q) != (i, j) && Opens(b0.cell, p, q) ==>
              NoHiddenNbor(b2, p, q)
  {
    forall p, q | NewlyRevealed(b0, b2, p, q) && (p, q) != (i, j) && Opens(b0.cell, p, q)
      ensures NoHiddenNbor(b2, p, q)
    {
      if bm.fog[p][q] == NoFog {
        assert NewlyRevealed(b0, bm, p, q);
        assert NoHiddenNbor(bm, p, q);
      } else {
        assert NewlyRevealed(bm, b2, p, q);
      }
    }
  }

  /** The recursive call on the neighbour at offset (m, n) sweeps it. */
  lemma StepSwept(bm: Board, b2: Board, i: int, j: int, m: int, n: int, r: int, c: int, sub: seq<(int, int)>)
    requires SameLayout(bm, b2) && r == i + m && c == j + n && bm.InBounds(r, c) && Swept(bm, i, j, m, n)
    requires Uncovered(bm, b2, r, c, sub)
    ensures Swept(b2, i, j, m, n + 1)
  {
    assert b2.fog[r][c] != Foggy by {
      if bm.fog[r][c] == Foggy {
        assert NewlyRevealed(bm, b2, sub[0].0, sub[0].1);
      }
    }
  }

  /**
   * The cascade invariant survives the recursive call on the neighbour
   * (r, c), at offset (m, n) from (i, j).
   */
  lemma StepCascade(b0: Board, bm: Board, b2: Board, i: int, j: int, order: seq<(int, int)>,
                    m: int, n: int, r: int, c: int, sub: seq<(int, int)>)
    requires SameLayout(b0, bm) && SameLayout(bm, b2)
    requires b0.InBounds(i, j) && Opens(b0.cell, i, j)
    requires Cascading(b0, bm, i, j, order) && Swept(bm, i, j, m, n)
    requires r == i + m && c == j + n && b0.InBounds(r, c) && Adjacent(i, j, r, c)
    requires Uncovered(bm, b2, r, c, sub)
    ensures SameLayout(b0, b2) && Cascading(b0, b2, i, j, order + sub) && Swept(b2, i, j, m, n + 1)
  {
    StepOrder(b0, bm, b2, i, j, order, r, c, sub);
    OnlyRevealsTrans(b0, bm, b2);
    StepSettled(b0, bm, b2, i, j, r, c, sub);
    StepSwept(bm, b2, i, j, m, n, r, c, sub);
  }

  /** Once every neighbour is swept, the cascade from (i, j) is a complete `uncover`. */
  lemma FinishCascade(b0: Board, b: Board, i: int, j: int, order: seq<(int, int)>)
    requires SameLayout(b0, b) && b0.InBounds(i, j) && b0.fog[i][j] == Foggy
    requires Cascading(b0, b, i, j, order) && Swept(b, i, j, 2, -1)
    ensures Uncovered(b0, b, i, j, order)
  {
    assert NoHiddenNbor(b, i, j);
  }

  // ---------------------------------------------------------------------
  // What `uncover` promises
  // ---------------------------------------------------------------------

  /** `uncover` never changes a NO_FOG or a FOG_MARKED square. */
  lemma UncoverKeepsMarks(b0: Board, b1: Board, i: int, j: int, order: seq<(int, int)>)
    requires SameLayout(b0, b1) && b0.InBounds(i, j) && Uncovered(b0, b1, i, j, order)
    ensures forall r, c :: b0.InBounds(r, c) && b0.fog[r][c] != Foggy ==> b1.fog[r][c] == b0.fog[r][c]
  {
  }

  /** Uncovering the same square twice leaves the board as uncovering it once. */
  lemma UncoverIdempotent(b0: Board, b1: Board, b2: Board, i: int, j: int, o1: seq<(int, int)>, o2: seq<(int, int)>)
    requires SameLayout(b0, b1) && SameLayout(b1, b2) && b0.InBounds(i, j)
    requires Uncovered(b0, b1, i, j, o1) && Uncovered(b1, b2, i, j, o2)
    ensures b2 == b1 && o2 == []
  {
    if b0.fog[i][j] == Foggy {
      assert NewlyRevealed(b0, b1, o1[0].0, o1[0].1);
    }
  }

  /**
   * Uncovering a FOGGY bomb or numbered square reveals it and nothing else.
   */
  lemma NoCascadeFromNumbered(b0: Board, b1: Board, i: int, j: int, order: seq<(int, int)>)
    requires SameLayout(b0, b1) && b0.InBounds(i, j) && Uncovered(b0, b1, i, j, order)
    requires b0.fog[i][j] == Foggy && (b0.cell[i][j] == Bomb || NborCount(b0.cell, i, j) > 0)
    ensures order == [(i, j)] && b1.fog[i][j] == NoFog
    ensures forall r, c :: b0.InBounds(r, c) && (r, c) != (i, j) ==> b1.fog[r][c] == b0.fog[r][c]
  {
    assert NewlyRevealed(b0, b1, i, j) by {
      assert NewlyRevealed(b0, b1, order[0].0, order[0].1);
    }
    assert |order| > 1 ==> Supported(b0.cell, order, 1);

  }

  /**
   * Uncovering a FOGGY square that opens reveals every in-bounds neighbour
   * that is not FOG_MARKED.
   */
  lemma CascadeRevealsNbors(b0: Board, b1: Board, i: int, j: int, order: seq<(int, int)>)
    requires SameLayout(b0, b1) && b0.InBounds(i, j) && Uncovered(b0, b1, i, j, order)
    requires b0.fog[i][j] == Foggy && Opens(b0.cell, i, j)
    ensures forall r, c :: b0.InBounds(r, c) && Adjacent(i, j, r, c) && b0.fog[r][c] != FogMarked ==>
              b1.fog[r][c] == NoFog
  {
    assert NewlyRevealed(b0, b1, order[0].0, order[0].1);
    assert NoHiddenNbor(b1, i, j);
  }

  /** The cascade never reveals a bomb: the only bomb `uncover` can reveal is (i, j) itself. */
  lemma CascadeSparesBombs(b0: Board, b1: Board, i: int, j: int, order: seq<(int, int)>)
    requires SameLayout(b0, b1) && b0.InBounds(i, j) && Uncovered(b0, b1, i, j, order)
    ensures forall r, c :: NewlyRevealed(b0, b1, r, c) && b0.cell[r][c] == Bomb ==> (r, c) == (i, j)
  {
    forall r, c | NewlyRevealed(b0, b1, r, c) && b0.cell[r][c] == Bomb ensures (r, c) == (i, j) {
      assert (r, c) in order;
      var k :| 0 <= k < |order| && order[k] == (r, c);
      if k > 0 {
        assert Supported(b0.cell, order, k);
        var m :| 0 <= m < k && InGrid(b0.cell, order[m]) && Opens(b0.cell, order[m].0, order[m].1) &&
          Adjacent(order[m].0, order[m].1, r, c);
        OpensSparesNbors(b0.cell, order[m].0, order[m].1, r, c);
      }
    }
  }

  /** `uncover` loses the game exactly when it is called on a FOGGY bomb. */
  lemma UncoverDead(b0: Board, b1: Board, i: int, j: int, order: seq<(int, int)>)
    requires SameLayout(b0, b1) && b0.InBounds(i, j) && Uncovered(b0, b1, i, j, order)
    requires !IsDead(b0)
    ensures IsDead(b1) <==> b0.fog[i][j] == Foggy && b0.cell[i][j] == Bomb
  {
    CascadeSparesBombs(b0, b1, i, j, order);
    if b0.fog[i][j] == Foggy {
      assert NewlyRevealed(b0, b1, order[0].0, order[0].1);
    }
    if IsDead(b1) {
      var r, c :| b1.InBounds(r, c) && b1.cell[r][c] == Bomb && b1.fog[r][c] == NoFog;
      assert NewlyRevealed(b0, b1, r, c);
    }
  }

  /** A lost game stays lost: `uncover` never covers a square again. */
  lemma UncoverKeepsDead(b0: Board, b1: Board, i: int, j: int, order: seq<(int, int)>)
    requires SameLayout(b0, b1) && b0.InBounds(i, j) && Uncovered(b0, b1, i, j, order)
    requires IsDead(b0)
    ensures IsDead(b1)
  {
    var r, c :| b0.InBounds(r, c) && b0.cell[r][c] == Bomb && b0.fog[r][c] == NoFog;
    assert b1.fog[r][c] == NoFog;
  }

  /**
   * Which squares `uncover` reveals does not depend on the order it visits
   * them in: any two results of uncovering (i, j) on b0 are the same board.
   */
  lemma UncoverDeterministic(b0: Board, b1: Board, b2: Board, i: int, j: int,
                             o1: seq<(int, int)>, o2: seq<(int, int)>)
    requires SameLayout(b0, b1) && SameLayout(b0, b2) && b0.InBounds(i, j)
    requires Uncovered(b0, b1, i, j, o1) && Uncovered(b0, b2, i, j, o2)
    ensures b1 == b2
  {
    OrderContained(b0, b1, b2, i, j, o1, o2);
    OrderContained(b0, b2, b1, i, j, o2, o1);
    forall r | 0 <= r < b0.nRow ensures b1.fog[r] == b2.fog[r] {
      forall c | 0 <= c < b0.nCol ensures b1.fog[r][c] == b2.fog[r][c] {
        if NewlyRevealed(b0, b1, r, c) {
          assert (r, c) in o1;
        } else if NewlyRevealed(b0, b2, r, c) {
          assert (r, c) in o2;
        }
      }
    }
  }

  /** Every square in the reveal order of b1 is revealed in b2 as well. */
  lemma OrderContained(b0: Board, b1: Board, b2: Board, i: int, j: int,
                       o1: seq<(int, int)>, o2: seq<(int, int)>)
    requires SameLayout(b0, b1) && SameLayout(b0, b2) && b0.InBounds(i, j)
    requires Uncovered(b0, b1, i, j, o1) && Uncovered(b0, b2, i, j, o2)
    ensures forall k :: 0 <= k < |o1| ==> NewlyRevealed(b0, b2, o1[k].0, o1[k].1)
  {
    forall k | 0 <= k < |o1| ensures NewlyRevealed(b0, b2, o1[k].0, o1[k].1) {
      PrefixContained(b0, b1, b2, i, j, o1, o2, k);
    }
  }

  lemma {:induction false} PrefixContained(b0: Board, b1: Board, b2: Board, i: int, j: int,
                                           o1: seq<(int, int)>, o2: seq<(int, int)>, k: int)
    requires SameLayout(b0, b1) && SameLayout(b0, b2) && b0.InBounds(i, j)
    requires Uncovered(b0, b1, i, j, o1) && Uncovered(b0, b2, i, j, o2)
    requires 0 <= k < |o1|
    ensures NewlyRevealed(b0, b2, o1[k].0, o1[k].1)
    decreases k
  {
    assert NewlyRevealed(b0, b1, o1[k].0, o1[k].1);
    if k == 0 {
      assert NewlyRevealed(b0, b2, o2[0].0, o2[0].1);
    } else {
      assert Supported(b0.cell, o1, k);
      var m :| 0 <= m < k && InGrid(b0.cell, o1[m]) && Opens(b0.cell, o1[m].0, o1[m].1) &&
        Adjacent(o1[m].0, o1[m].1, o1[k].0, o1[k].1);
      PrefixContained(b0, b1, b2, i, j, o1, o2, m);
      assert NoHiddenNbor(b2, o1[m].0, o1[m].1);
    }
  }

  /**
   * On a board without bombs whose squares are all FOGGY (a fresh game),
   * one `uncover` reveals every square and wins the game.
   */
  lemma FloodFillsMineFree(b0: Board, b1: Board, i: int, j: int, order: seq<(int, int)>)
    requires SameLayout(b0, b1) && b0.InBounds(i, j) && Uncovered(b0, b1, i, j, order)
    requires b0.cell == Uniform(b0.nRow, b0.nCol, Empty) && b0.fog == Uniform(b0.nRow, b0.nCol, Foggy)
    ensures b1.fog == Uniform(b0.nRow, b0.nCol, NoFog)
    ensures IsWin(b1)
  {
    assert NewlyRevealed(b0, b1, order[0].0, order[0].1);
    forall r, c | b0.InBounds(r, c) ensures b1.fog[r][c] == NoFog {
      WalkRow(b0, b1, i, j, order, i, j, c);
      WalkColumn(b0, b1, i, j, order, i, r, c);
    }
    var all := Uniform(b0.nRow, b0.nCol, NoFog);
    forall r | 0 <= r < b0.nRow ensures b1.fog[r] == all[r] {
    }
  }

  /** On a mine-free fresh board a revealed square reveals its in-bounds neighbours. */
  lemma SpreadStep(b0: Board, b1: Board, i: int, j: int, order: seq<(int, int)>, r: int, c: int, r2: int, c2: int)
    requires SameLayout(b0, b1) && b0.InBounds(i, j) && Uncovered(b0, b1, i, j, order)
    requires b0.cell == Uniform(b0.nRow, b0.nCol, Empty) && b0.fog == Uniform(b0.nRow, b0.nCol, Foggy)
    requires b0.InBounds(r, c) && b1.fog[r][c] == NoFog
    requires b0.InBounds(r2, c2) && Adjacent(r, c, r2, c2)
    ensures b1.fog[r2][c2] == NoFog
  {
    NoBombsNoCount(b0.cell, r, c);
    assert NewlyRevealed(b0, b1, r, c);
    assert NoHiddenNbor(b1, r, c);
  }

  /** Along a row: from a revealed square to any square of the same row. */
  lemma {:induction false} WalkRow(b0: Board, b1: Board, i: int, j: int, order: seq<(int, int)>,
                                   r: int, c0: int, c: int)
    requires SameLayout(b0, b1) && b0.InBounds(i, j) && Uncovered(b0, b1, i, j, order)
    requires b0.cell == Uniform(b0.nRow, b0.nCol, Empty) && b0.fog == Uniform(b0.nRow, b0.nCol, Foggy)
    requires b0.InBounds(r, c0) && b1.fog[r][c0] == NoFog && 0 <= c < b0.nCol
    ensures b1.fog[r][c] == NoFog
    decreases if c < c0 then c0 - c else c - c0
  {
    if c != c0 {
      var prev := if c < c0 then c + 1 else c - 1;
      WalkRow(b0, b1, i, j, order, r, c0, prev);
      SpreadStep(b0, b1, i, j, order, r, prev, r, c);
    }
  }

  /** Along a column: from a revealed square to any square of the same column. */
  lemma {:induction false} WalkColumn(b0: Board, b1: Board, i: int, j: int, order: seq<(int, int)>,
                                      r0: int, r: int, c: int)
    requires SameLayout(b0, b1) && b0.InBounds(i, j) && Uncovered(b0, b1, i, j, order)
    requires b0.cell == Uniform(b0.nRow, b0.nCol, Empty) && b0.fog == Uniform(b0.nRow, b0.nCol, Foggy)
    requires b0.InBounds(r0, c) && b1.fog[r0][c] == NoFog && 0 <= r < b0.nRow
    ensures b1.fog[r][c] == NoFog
    decreases if r < r0 then r0 - r else r - r0
  {
    if r != r0 {
      var prev := if r < r0 then r + 1 else r - 1;
      WalkColumn(b0, b1, i, j, order, r0, prev, c);
      SpreadStep(b0, b1, i, j, order, prev, c, r, c);
    }
  }
}
