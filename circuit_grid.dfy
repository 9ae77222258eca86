/**
 * The circuit puzzle's grid and its two run-time operations
 * (packages/games/circuit_override.py): rotating one cell in place, and the
 * depth-first solvability oracle that decides whether EXIT can be reached
 * from ENTRY.
 */
module CircuitGrid {
  import opened Wrappers
  import opened Tiles

  /** GRID_SIZE: the grid is GridSize x GridSize cells. */
  const GridSize: int := 5

  /** A (row, column) coordinate, zero-based. */
  type Pos = (int, int)

  const Entry: Pos := (0, 0)
  const Exit: Pos := (GridSize - 1, GridSize - 1)

  predicate InGrid(p: Pos)
  {
    0 <= p.0 < GridSize && 0 <= p.1 < GridSize
  }

  /** Every cell of the grid. */
  const AllCells: set<Pos> := set r, c | 0 <= r < GridSize && 0 <= c < GridSize :: (r, c)

  lemma InGridIsCell(p: Pos)
    requires InGrid(p)
    ensures p in AllCells
  {
    assert p == (p.0, p.1);
  }

  /** The cell one step from `p` in direction `d` (it may lie outside the grid). */
  function Step(p: Pos, d: Dir): Pos
  {
    match d
    case N => (p.0 - 1, p.1)
    case S => (p.0 + 1, p.1)
    case W => (p.0, p.1 - 1)
    case E => (p.0, p.1 + 1)
  }

  /** The direction of the single step from `p` to `q`, if they are 4-neighbours. */
  function Toward(p: Pos, q: Pos): (r: Option<Dir>)
    ensures r.Some? ==> Step(p, r.value) == q
    ensures forall d: Dir :: Step(p, d) == q ==> r == Some(d)
  {
    if q == (p.0 - 1, p.1) then Some(N)
    else if q == (p.0 + 1, p.1) then Some(S)
    else if q == (p.0, p.1 - 1) then Some(W)
    else if q == (p.0, p.1 + 1) then Some(E)
    else None
  }

  /** A snapshot of the grid, row by row. */
  type Board = seq<seq<Tile>>

  predicate IsBoard(g: Board)
  {
    |g| == GridSize && forall i :: 0 <= i < |g| ==> |g[i]| == GridSize
  }

  predicate IsGrid(grid: array2<Tile>)
  {
    grid.Length0 == GridSize && grid.Length1 == GridSize
  }

  /** The list-of-lists the source passes around, read off the array. */
  function BoardOf(grid: array2<Tile>): (g: Board)
    requires IsGrid(grid)
    reads grid
    ensures IsBoard(g)
    ensures forall i, j :: 0 <= i < GridSize && 0 <= j < GridSize ==> g[i][j] == grid[i, j]
  {
    seq(GridSize, i requires 0 <= i < GridSize reads grid =>
      seq(GridSize, j requires 0 <= j < GridSize reads grid => grid[i, j]))
  }

  /**
   * The arms the oracle uses at a cell: ENTRY and EXIT are wildcards that
   * open on all four sides whatever tile lies under them.
   */
  function Arms(g: Board, p: Pos): set<Dir>
    requires IsBoard(g) && InGrid(p)
  {
    if p == Entry || p == Exit then AllDirs else Connections(g[p.0][p.1])
  }

  /**
   * One move of the search: `q` is the grid neighbour of `p` in some
   * direction d, `p` has an arm towards d and `q` an arm back.
   */
  ghost predicate Link(g: Board, p: Pos, q: Pos)
    requires IsBoard(g)
  {
    && InGrid(p) && InGrid(q)
    && Toward(p, q).Some?
    && Toward(p, q).value in Arms(g, p)
    && Opposite(Toward(p, q).value) in Arms(g, q)
  }

  /** A walk of linked cells that stays on the grid and never enters a trap. */
  ghost predicate IsWalk(g: Board, traps: set<Pos>, w: seq<Pos>)
    requires IsBoard(g)
  {
    && |w| > 0
    && (forall i :: 0 <= i < |w| ==> InGrid(w[i]) && w[i] !in traps)
    && (forall i :: 0 <= i < |w| - 1 ==> Link(g, w[i], w[i + 1]))
  }

  /** The puzzle is solved when some walk leads from ENTRY to EXIT. */
  ghost predicate Solved(g: Board, traps: set<Pos>)
    requires IsBoard(g)
  {
    exists w :: IsWalk(g, traps, w) && w[0] == Entry && w[|w| - 1] == Exit
  }

  /**
   * rotate_tile: turns the tile at (row, col) a quarter clockwise, in place;
   * every other cell keeps its tile.  The caller checks the range first.
   */
  method RotateTile(grid: array2<Tile>, row: int, col: int)
    requires IsGrid(grid)
    requires 0 <= row < GridSize && 0 <= col < GridSize
    modifies grid
    ensures grid[row, col] == Rotate(old(grid[row, col]))
    ensures forall i, j :: 0 <= i < GridSize && 0 <= j < GridSize && (i, j) != (row, col) ==>
              grid[i, j] == old(grid[i, j])
  {
    grid[row, col] := Rotate(grid[row, col]);
  }

  /** Two neighbouring cells are linked when each opens towards the other. */
  lemma LinkByArms(g: Board, p: Pos, d: Dir)
    requires IsBoard(g) && InGrid(p) && InGrid(Step(p, d))
    requires d in Arms(g, p) && Opposite(d) in Arms(g, Step(p, d))
    ensures Link(g, p, Step(p, d))
  {
    assert Toward(p, Step(p, d)) == Some(d);
  }

  /** Appending a linked, trap-free cell to a walk gives a walk. */
  lemma ExtendWalk(g: Board, traps: set<Pos>, w: seq<Pos>, p: Pos)
    requires IsBoard(g) && IsWalk(g, traps, w)
    requires InGrid(p) && p !in traps && Link(g, w[|w| - 1], p)
    ensures IsWalk(g, traps, w + [p])
  {
    var w' := w + [p];
    forall i | 0 <= i < |w'| - 1
      ensures Link(g, w'[i], w'[i + 1])
    {
      if i < |w| - 1 {
        assert w'[i] == w[i] && w'[i + 1] == w[i + 1];
      }
    }
  }

  /** Every cell of a walk from ENTRY lies in a set closed under moves. */
  lemma {:induction false} WalkStaysInside(g: Board, traps: set<Pos>, closed: set<Pos>, w: seq<Pos>, k: nat)
    requires IsBoard(g) && IsWalk(g, traps, w) && w[0] == Entry && k < |w|
    requires Entry in closed || Entry in traps
    requires forall v, q :: v in closed && Link(g, v, q) ==> q in closed || q in traps
    ensures w[k] in closed
  {
    if k > 0 {
      WalkStaysInside(g, traps, closed, w, k - 1);
      assert Link(g, w[k - 1], w[k]);
    }
  }

  /**
   * When the search stops, the set it visited contains ENTRY (unless ENTRY
   * is a trap) and is closed under moves; if EXIT is not in it, no walk
   * reaches EXIT.
   */
  lemma ClosedSetBlocksExit(g: Board, traps: set<Pos>, closed: set<Pos>)
    requires IsBoard(g)
    requires Entry in closed || Entry in traps
    requires forall v, q :: v in closed && Link(g, v, q) ==> q in closed || q in traps
    requires Exit !in closed
    ensures !Solved(g, traps)
  {
    if Solved(g, traps) {
      var w :| IsWalk(g, traps, w) && w[0] == Entry && w[|w| - 1] == Exit;
      WalkStaysInside(g, traps, closed, w, |w| - 1);
    }
  }

  /**
   * A walk whose last cell may still be a trap: the prefix is a walk and the
   * last cell is on the grid and linked to the one before it.
   */
  ghost predicate WalkToCandidate(g: Board, traps: set<Pos>, w: seq<Pos>)
    requires IsBoard(g)
  {
    && |w| > 0 && w[0] == Entry && InGrid(w[|w| - 1])
    && (|w| > 1 ==> IsWalk(g, traps, w[..|w| - 1]) && Link(g, w[|w| - 2], w[|w| - 1]))
  }

  /** A candidate walk whose last cell is no trap is a walk. */
  lemma CandidateIsWalk(g: Board, traps: set<Pos>, w: seq<Pos>)
    requires IsBoard(g) && WalkToCandidate(g, traps, w) && w[|w| - 1] !in traps
    ensures IsWalk(g, traps, w)
  {
    if |w| > 1 {
      ExtendWalk(g, traps, w[..|w| - 1], w[|w| - 1]);
      assert w[..|w| - 1] + [w[|w| - 1]] == w;
    }
  }

  /** What the search keeps about its stack: each entry is the end of a candidate walk from ENTRY. */
  ghost predicate StackSound(g: Board, traps: set<Pos>, stack: seq<Pos>, walks: seq<seq<Pos>>)
    requires IsBoard(g)
  {
    && |walks| == |stack|
    && forall i :: 0 <= i < |stack| ==>
         WalkToCandidate(g, traps, walks[i]) && walks[i][|walks[i]| - 1] == stack[i]
  }

  /**
   * The inner loop of is_solved: for each direction the visited cell `cur`
   * opens (in any order), push the neighbour inside the grid that opens back.
   */
  method PushOpenNeighbours(grid: array2<Tile>, traps: set<Pos>, cur: Pos, ghost toCur: seq<Pos>,
                            stack: seq<Pos>, ghost walks: seq<seq<Pos>>)
    returns (stack': seq<Pos>, ghost walks': seq<seq<Pos>>)
    requires IsGrid(grid) && InGrid(cur)
    requires IsWalk(BoardOf(grid), traps, toCur) && toCur[0] == Entry && toCur[|toCur| - 1] == cur
    requires StackSound(BoardOf(grid), traps, stack, walks)
    ensures StackSound(BoardOf(grid), traps, stack', walks')
    ensures forall q :: q in stack ==> q in stack'
    ensures forall q :: Link(BoardOf(grid), cur, q) ==> q in stack'
  {
    ghost var g := BoardOf(grid);
    var dirsHere := if cur == Entry || cur == Exit then AllDirs else Connections(grid[cur.0, cur.1]);
    assert dirsHere == Arms(g, cur);
    stack', walks' := stack, walks;
    var todo := dirsHere;
    while todo != {}
      invariant todo <= dirsHere
      invariant StackSound(g, traps, stack', walks')
      invariant forall q :: q in stack ==> q in stack'
      invariant forall d :: d in dirsHere && d !in todo && InGrid(Step(cur, d)) && Opposite(d) in Arms(g, Step(cur, d)) ==>
                  Step(cur, d) in stack'
      decreases todo
    {
      var d :| d in todo;
      todo := todo - {d};
      var next := Step(cur, d);
      if 0 <= next.0 < GridSize && 0 <= next.1 < GridSize {
        var neighbourDirs := if next == Entry || next == Exit then AllDirs else Connections(grid[next.0, next.1]);
        assert neighbourDirs == Arms(g, next);
        if Opposite(d) in neighbourDirs {
          assert Toward(cur, next) == Some(d);
          ghost var w := toCur + [next];
          assert w[..|w| - 1] == toCur;
          stack', walks' := stack' + [next], walks' + [w];
        }
      }
    }
    forall q | Link(g, cur, q)
      ensures q in stack'
    {
      var d := Toward(cur, q).value;
      assert Step(cur, d) == q;
    }
  }

  /** Every move out of a visited cell leads to a visited cell, a trap or a stacked cell. */
  ghost predicate ClosedUpTo(g: Board, traps: set<Pos>, visited: set<Pos>, stack: seq<Pos>)
    requires IsBoard(g)
  {
    forall v, q :: v in visited && Link(g, v, q) ==> q in visited || q in traps || q in stack
  }

  /** Popping a cell that is visited or a trap keeps the search closed. */
  lemma PopKeepsClosed(g: Board, traps: set<Pos>, visited: set<Pos>, stack: seq<Pos>)
    requires IsBoard(g) && |stack| > 0 && ClosedUpTo(g, traps, visited, stack)
    requires stack[|stack| - 1] in visited || stack[|stack| - 1] in traps
    ensures ClosedUpTo(g, traps, visited, stack[..|stack| - 1])
  {
    var rest := stack[..|stack| - 1];
    forall v, q | v in visited && Link(g, v, q)
      ensures q in visited || q in traps || q in rest
    {
      if q in stack && q != stack[|stack| - 1] {
        var i :| 0 <= i < |stack| && stack[i] == q;
        assert rest[i] == q;
      }
    }
  }

  /** Visiting the popped cell and pushing its open neighbours keeps the search closed. */
  lemma VisitKeepsClosed(g: Board, traps: set<Pos>, visited: set<Pos>, stack: seq<Pos>, pushed: seq<Pos>)
    requires IsBoard(g) && |stack| > 0 && ClosedUpTo(g, traps, visited, stack)
    requires forall q :: q in stack[..|stack| - 1] ==> q in pushed
    requires forall q :: Link(g, stack[|stack| - 1], q) ==> q in pushed
    ensures ClosedUpTo(g, traps, visited + {stack[|stack| - 1]}, pushed)
  {
    var cur, rest := stack[|stack| - 1], stack[..|stack| - 1];
    forall v, q | v in visited + {cur} && Link(g, v, q)
      ensures q in visited + {cur} || q in traps || q in pushed
    {
      if v != cur && q in stack && q != cur {
        var i :| 0 <= i < |stack| && stack[i] == q;
        assert rest[i] == q;
      }
    }
  }

  /** Everything the search loop of is_solved keeps. */
  ghost predicate SearchInv(g: Board, traps: set<Pos>, visited: set<Pos>, stack: seq<Pos>, walks: seq<seq<Pos>>)
    requires IsBoard(g)
  {
    && visited <= AllCells
    && Exit !in visited
    && StackSound(g, traps, stack, walks)
    && (Entry in visited || Entry in traps || Entry in stack)
    && ClosedUpTo(g, traps, visited, stack)
  }

  /** A popped cell that was visited or is a trap is skipped. */
  lemma SkipStep(g: Board, traps: set<Pos>, visited: set<Pos>, stack: seq<Pos>, walks: seq<seq<Pos>>)
    requires IsBoard(g) && |stack| > 0 && SearchInv(g, traps, visited, stack, walks)
    requires stack[|stack| - 1] in visited || stack[|stack| - 1] in traps
    ensures SearchInv(g, traps, visited, stack[..|stack| - 1], walks[..|walks| - 1])
  {
    PopKeepsClosed(g, traps, visited, stack);
  }

  /** A popped cell other than EXIT is visited and its open neighbours pushed. */
  lemma VisitStep(g: Board, traps: set<Pos>, visited: set<Pos>, stack: seq<Pos>, walks: seq<seq<Pos>>,
                  pushed: seq<Pos>, pushedWalks: seq<seq<Pos>>)
    requires IsBoard(g) && |stack| > 0 && SearchInv(g, traps, visited, stack, walks)
    requires stack[|stack| - 1] != Exit && stack[|stack| - 1] !in visited
    requires StackSound(g, traps, pushed, pushedWalks)
    requires forall q :: q in stack[..|stack| - 1] ==> q in pushed
    requires forall q :: Link(g, stack[|stack| - 1], q) ==> q in pushed
    ensures SearchInv(g, traps, visited + {stack[|stack| - 1]}, pushed, pushedWalks)
  {
    var cur := stack[|stack| - 1];
    InGridIsCell(cur);
    VisitKeepsClosed(g, traps, visited, stack, pushed);
    if Entry !in visited && Entry !in traps && Entry != cur {
      var i :| 0 <= i < |stack| && stack[i] == Entry;
      assert stack[..|stack| - 1][i] == Entry;
    }
  }

  /** Visiting a new cell of the grid shrinks the set of unvisited cells. */
  lemma VisitShrinks(visited: set<Pos>, cur: Pos)
    requires InGrid(cur) && cur !in visited
    ensures AllCells - (visited + {cur}) < AllCells - visited
  {
    InGridIsCell(cur);
    assert cur in AllCells - visited;
  }

  /** A walk from ENTRY to EXIT is a witness that the grid is solved. */
  lemma WalkSolves(g: Board, traps: set<Pos>, w: seq<Pos>)
    requires IsBoard(g) && IsWalk(g, traps, w) && w[0] == Entry && w[|w| - 1] == Exit
    ensures Solved(g, traps)
  {
  }

  /**
   * One pass of the search loop of is_solved: pop a cell; skip it when it was
   * visited or is a trap; answer true when it is EXIT; otherwise visit it and
   * push its open neighbours.  Either the grid is solved or the search state
   * keeps its invariant and shrinks.
   */
  method SearchStep(grid: array2<Tile>, traps: set<Pos>, visited: set<Pos>, stack: seq<Pos>,
                    ghost walks: seq<seq<Pos>>)
    returns (found: bool, visited': set<Pos>, stack': seq<Pos>, ghost walks': seq<seq<Pos>>)
    requires IsGrid(grid) && |stack| > 0 && SearchInv(BoardOf(grid), traps, visited, stack, walks)
    ensures found ==> Solved(BoardOf(grid), traps)
    ensures !found ==> SearchInv(BoardOf(grid), traps, visited', stack', walks')
    ensures !found ==> AllCells - visited' < AllCells - visited || (visited' == visited && |stack'| < |stack|)
  {
    ghost var g := BoardOf(grid);
    var cur := stack[|stack| - 1];
    ghost var toCur := walks[|walks| - 1];
    found, visited', stack', walks' := false, visited, stack[..|stack| - 1], walks[..|walks| - 1];
    if cur in visited || cur in traps {
      SkipStep(g, traps, visited, stack, walks);
    } else {
      CandidateIsWalk(g, traps, toCur);
      if cur == Exit {
        WalkSolves(g, traps, toCur);
        found := true;
      } else {
        stack', walks' := PushOpenNeighbours(grid, traps, cur, toCur, stack', walks');
        VisitStep(g, traps, visited, stack, walks, stack', walks');
        VisitShrinks(visited, cur);
        visited' := visited + {cur};
      }
    }
  }

  /**
   * is_solved: a depth-first search from ENTRY with an explicit stack and a
   * visited set.  Popped cells that were visited or are traps are skipped;
   * reaching EXIT answers true; otherwise every direction the cell opens is
   * tried and a neighbour inside the grid is pushed when it opens back.
   * The answer is exactly whether a walk leads from ENTRY to EXIT.
   */
  method IsSolved(grid: array2<Tile>, traps: set<Pos>) returns (solved: bool)
    requires IsGrid(grid)
    ensures solved == Solved(BoardOf(grid), traps)
  {
    var visited: set<Pos> := {};
    var stack: seq<Pos> := [Entry];
    // for each stack entry, a walk from ENTRY that reaches it
    ghost var walks: seq<seq<Pos>> := [[Entry]];
    while |stack| > 0
      invariant SearchInv(BoardOf(grid), traps, visited, stack, walks)
      decreases AllCells - visited, |stack|
    {
      var found;
      found, visited, stack, walks := SearchStep(grid, traps, visited, stack, walks);
      if found {
        return true;
      }
    }
    ClosedSetBlocksExit(BoardOf(grid), traps, visited);
    return false;
  }
}
