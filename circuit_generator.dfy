/**
 * How the circuit puzzle is set up (packages/games/circuit_override.py):
 * a monotone right/down solution path, tiles laid on it so that it can be
 * walked, traps sampled off the path, the solvability check, a scramble of
 * every cell by 0-3 quarter turns, and one "break" turn when the scrambled
 * grid happens to be solved already.  Random choices are nondeterministic.
 */
module CircuitGenerator {
  import opened Wrappers
  import opened Tiles
  import opened CircuitGrid

  /** TRAP_COUNT: how many trap cells the generator asks for. */
  const TrapCount: int := 3

  /** A path that starts at ENTRY, ends at EXIT and steps one row down or one column right at a time. */
  ghost predicate MonotonePath(path: seq<Pos>)
  {
    && |path| > 0
    && path[0] == Entry
    && path[|path| - 1] == Exit
    && (forall i :: 0 <= i < |path| ==> InGrid(path[i]))
    && (forall i :: 0 <= i < |path| - 1 ==> path[i + 1] == Step(path[i], S) || path[i + 1] == Step(path[i], E))
  }

  /** The i-th cell of a monotone path lies on anti-diagonal i. */
  lemma {:induction false} MonotoneDiagonal(path: seq<Pos>, i: nat)
    requires MonotonePath(path) && i < |path|
    ensures path[i].0 + path[i].1 == i
  {
    if i > 0 {
      MonotoneDiagonal(path, i - 1);
    }
  }

  /**
   * A monotone path visits 2 * (GRID_SIZE - 1) + 1 cells, all distinct, one
   * per anti-diagonal.
   */
  lemma MonotonePathShape(path: seq<Pos>)
    requires MonotonePath(path)
    ensures |path| == 2 * (GridSize - 1) + 1
    ensures forall i, j :: 0 <= i < j < |path| ==> path[i] != path[j]
  {
    MonotoneDiagonal(path, |path| - 1);
    forall i, j | 0 <= i < j < |path|
      ensures path[i] != path[j]
    {
      MonotoneDiagonal(path, i);
      MonotoneDiagonal(path, j);
    }
  }

  /**
   * _build_solution_path: from ENTRY, step down or right (a coin decides
   * when both are possible, down when right is impossible) until EXIT.
   */
  method BuildSolutionPath() returns (path: seq<Pos>)
    ensures MonotonePath(path)
    ensures |path| == 2 * (GridSize - 1) + 1
  {
    path := [Entry];
    var r, c := Entry.0, Entry.1;
    while (r, c) != Exit
      invariant 0 <= r < GridSize && 0 <= c < GridSize
      invariant |path| == r + c + 1 && path[0] == Entry && path[|path| - 1] == (r, c)
      invariant forall i :: 0 <= i < |path| ==> InGrid(path[i])
      invariant forall i :: 0 <= i < |path| - 1 ==> path[i + 1] == Step(path[i], S) || path[i + 1] == Step(path[i], E)
      decreases 2 * (GridSize - 1) - r - c
    {
      var canDown := r < GridSize - 1;
      var canRight := c < GridSize - 1;
      var heads: bool :| true;
      if canDown && (!canRight || heads) {
        r := r + 1;
      } else {
        c := c + 1;
      }
      path := path + [(r, c)];
    }
  }

  /** The order in which the placement step tries the four neighbours. */
  const DeltaOrder: seq<Dir> := [N, S, W, E]

  /** The directions among `dirs` whose neighbour of `p` lies on the path. */
  function NeedAmong(path: seq<Pos>, p: Pos, dirs: seq<Dir>): (need: set<Dir>)
    ensures forall d :: d in need <==> d in dirs && Step(p, d) in path
  {
    if dirs == [] then {}
    else
      var last := dirs[|dirs| - 1];
      NeedAmong(path, p, dirs[..|dirs| - 1]) + (if Step(p, last) in path then {last} else {})
  }

  /** Every direction in which a neighbour of `p` belongs to the path. */
  function Need(path: seq<Pos>, p: Pos): set<Dir>
  {
    NeedAmong(path, p, DeltaOrder)
  }

  /** `t` opens towards every needed direction. */
  predicate Fits(need: set<Dir>, t: Tile)
  {
    need <= Connections(t)
  }

  /**
   * The first tile of `table` that fits `need` and has the fewest arms among
   * those that fit: the head of the candidates after a stable sort by arm
   * count.
   */
  function FirstFewest(need: set<Dir>, table: seq<Tile>): (r: Option<Tile>)
    ensures r.None? <==> forall t :: t in table ==> !Fits(need, t)
    ensures r.Some? ==> r.value in table && Fits(need, r.value)
  {
    if table == [] then None
    else
      var rest := FirstFewest(need, table[1..]);
      if Fits(need, table[0]) && (rest.None? || |Connections(table[0])| <= |Connections(rest.value)|) then
        Some(table[0])
      else
        rest
  }

  /**
   * No fitting tile has fewer arms than the one FirstFewest picks, and every
   * fitting tile before it in the table has more.
   */
  lemma {:induction false} FirstFewestIsFirstOfFewest(need: set<Dir>, table: seq<Tile>)
    requires FirstFewest(need, table).Some?
    ensures forall t :: t in table && Fits(need, t) ==>
              |Connections(FirstFewest(need, table).value)| <= |Connections(t)|
    ensures exists k :: 0 <= k < |table| && table[k] == FirstFewest(need, table).value &&
              (forall i :: 0 <= i < k && Fits(need, table[i]) ==>
                 |Connections(table[i])| > |Connections(FirstFewest(need, table).value)|)
  {
    var r := FirstFewest(need, table).value;
    var rest := FirstFewest(need, table[1..]);
    if Fits(need, table[0]) && (rest.None? || |Connections(table[0])| <= |Connections(rest.value)|) {
      assert r == table[0];
      if rest.Some? {
        FirstFewestIsFirstOfFewest(need, table[1..]);
      }
      assert forall t :: t in table ==> t == table[0] || t in table[1..];
    } else {
      assert r == rest.value;
      FirstFewestIsFirstOfFewest(need, table[1..]);
      var k' :| 0 <= k' < |table[1..]| && table[1..][k'] == r &&
        (forall i :: 0 <= i < k' && Fits(need, table[1..][i]) ==> |Connections(table[1..][i])| > |Connections(r)|);
      assert table[k' + 1] == r;
      forall i | 0 <= i < k' + 1 && Fits(need, table[i])
        ensures |Connections(table[i])| > |Connections(r)|
      {
        if i > 0 {
          assert table[i] == table[1..][i - 1];
        }
      }
      assert forall t :: t in table ==> t == table[0] || t in table[1..];
    }
  }

  /**
   * The tile _place_solution_tiles lays on a path cell: the first candidate
   * in table order with the fewest arms, or a cross when there is none.
   */
  function ChooseTile(need: set<Dir>): Tile
  {
    match FirstFewest(need, TableOrder)
    case Some(t) => t
    case None => Cross
  }

  /**
   * The chosen tile opens towards every needed direction, no candidate has
   * fewer arms, and every candidate before it in table order has more.
   */
  lemma ChooseTileIsFirstFewest(need: set<Dir>)
    ensures Fits(need, ChooseTile(need))
    ensures forall t: Tile :: Fits(need, t) ==> |Connections(ChooseTile(need))| <= |Connections(t)|
    ensures exists k :: 0 <= k < |TableOrder| && TableOrder[k] == ChooseTile(need) &&
              (forall i :: 0 <= i < k && Fits(need, TableOrder[i]) ==>
                 |Connections(TableOrder[i])| > |Connections(ChooseTile(need))|)
  {
    TableOrderIsAlphabet(Cross);
    forall d | d in need
      ensures d in Connections(Cross)
    {
      match d
      case N =>
      case E =>
      case S =>
      case W =>
    }
    FirstFewestIsFirstOfFewest(need, TableOrder);
    forall t: Tile
      ensures t in TableOrder
    {
      TableOrderIsAlphabet(t);
    }
  }

  /**
   * The inner loop of _place_solution_tiles: the directions, tried in the
   * order N, S, W, E, whose neighbour of `p` lies on the path.
   */
  method NeighboursOnPath(path: seq<Pos>, p: Pos) returns (neighbours: set<Dir>)
    ensures neighbours == Need(path, p)
    ensures forall d :: d in neighbours <==> Step(p, d) in path
  {
    neighbours := {};
    for k := 0 to |DeltaOrder|
      invariant neighbours == NeedAmong(path, p, DeltaOrder[..k])
    {
      assert DeltaOrder[..k + 1][..k] == DeltaOrder[..k];
      if Step(p, DeltaOrder[k]) in path {
        neighbours := neighbours + {DeltaOrder[k]};
      }
    }
    assert DeltaOrder[..|DeltaOrder|] == DeltaOrder;
    forall d: Dir
      ensures d in DeltaOrder
    {
      match d
      case N => assert DeltaOrder[0] == d;
      case S => assert DeltaOrder[1] == d;
      case W => assert DeltaOrder[2] == d;
      case E => assert DeltaOrder[3] == d;
    }
  }

  /** The cells among the first n + 1 of a sequence are those among the first n and the next one. */
  lemma PrefixGrows(path: seq<Pos>, n: nat)
    requires n < |path|
    ensures forall q :: q in path[..n + 1] <==> q in path[..n] || q == path[n]
  {
    assert path[..n + 1] == path[..n] + [path[n]];
  }

  /**
   * _place_solution_tiles: lay on each path cell the tile chosen for the
   * directions of its path neighbours.  Cells off the path keep their tiles.
   */
  method PlaceSolutionTiles(grid: array2<Tile>, path: seq<Pos>)
    requires IsGrid(grid)
    requires forall i :: 0 <= i < |path| ==> InGrid(path[i])
    modifies grid
    ensures forall i, j :: 0 <= i < GridSize && 0 <= j < GridSize && (i, j) in path ==>
              grid[i, j] == ChooseTile(Need(path, (i, j)))
    ensures forall i, j :: 0 <= i < GridSize && 0 <= j < GridSize && (i, j) !in path ==>
              grid[i, j] == old(grid[i, j])
  {
    for n := 0 to |path|
      invariant forall i, j :: 0 <= i < GridSize && 0 <= j < GridSize && (i, j) in path[..n] ==>
                  grid[i, j] == ChooseTile(Need(path, (i, j)))
      invariant forall i, j :: 0 <= i < GridSize && 0 <= j < GridSize && (i, j) !in path[..n] ==>
                  grid[i, j] == old(grid[i, j])
    {
      var p := path[n];
      var neighbours := NeighboursOnPath(path, p);
      PrefixGrows(path, n);
      grid[p.0, p.1] := ChooseTile(neighbours);
    }
    assert path[..|path|] == path;
  }

  /** A step and the opposite step cancel. */
  lemma StepBack(p: Pos, d: Dir)
    ensures Step(Step(p, d), Opposite(d)) == p
  {
    match d
    case N =>
    case E =>
    case S =>
    case W =>
  }

  /** The chosen tile opens towards every needed direction. */
  lemma ChooseTileFits(need: set<Dir>)
    ensures need <= Connections(ChooseTile(need))
  {
    ChooseTileIsFirstFewest(need);
  }

  /** A path cell opens towards each neighbour on the path. */
  lemma PlacedArms(g: Board, path: seq<Pos>, a: Pos, d: Dir)
    requires IsBoard(g) && InGrid(a) && g[a.0][a.1] == ChooseTile(Need(path, a))
    requires Step(a, d) in path
    ensures d in Arms(g, a)
  {
    assert d in Need(path, a);
    ChooseTileFits(Need(path, a));
    if a == Entry || a == Exit {
      match d
      case N =>
      case E =>
      case S =>
      case W =>
    }
  }

  /** One step of a placed monotone path is a link. */
  lemma PlacedStepLinks(g: Board, path: seq<Pos>, a: Pos, d: Dir)
    requires IsBoard(g) && InGrid(a) && InGrid(Step(a, d)) && a in path && Step(a, d) in path
    requires g[a.0][a.1] == ChooseTile(Need(path, a))
    requires g[Step(a, d).0][Step(a, d).1] == ChooseTile(Need(path, Step(a, d)))
    ensures Link(g, a, Step(a, d))
  {
    StepBack(a, d);
    PlacedArms(g, path, a, d);
    PlacedArms(g, path, Step(a, d), Opposite(d));
    LinkByArms(g, a, d);
  }

  /**
   * After placement, the monotone path, which avoids the traps, is a walk:
   * each of its cells opens towards the cells next to it on the path.  So the
   * placed grid is solved.
   */
  lemma PlacedPathIsWalk(g: Board, traps: set<Pos>, path: seq<Pos>)
    requires IsBoard(g) && MonotonePath(path)
    requires forall i :: 0 <= i < |path| ==> path[i] !in traps
    requires forall i :: 0 <= i < |path| ==> g[path[i].0][path[i].1] == ChooseTile(Need(path, path[i]))
    ensures IsWalk(g, traps, path)
    ensures Solved(g, traps)
  {
    forall i | 0 <= i < |path| - 1
      ensures Link(g, path[i], path[i + 1])
    {
      var d := if path[i + 1] == Step(path[i], S) then S else E;
      PlacedStepLinks(g, path, path[i], d);
    }
    WalkSolves(g, traps, path);
  }

  /**
   * off_path: the cells of the grid, row by row, that are not on the
   * solution path.
   */
  method OffPathCells(path: seq<Pos>) returns (off: seq<Pos>)
    ensures forall q :: q in off <==> InGrid(q) && q !in path
    ensures Distinct(off)
  {
    off := [];
    for r := 0 to GridSize
      invariant forall q :: q in off <==> InGrid(q) && q.0 < r && q !in path
      invariant Distinct(off)
    {
      for c := 0 to GridSize
        invariant forall q :: q in off <==> InGrid(q) && (q.0 < r || (q.0 == r && q.1 < c)) && q !in path
        invariant Distinct(off)
      {
        if (r, c) !in path {
          off := off + [(r, c)];
        }
      }
    }
  }

  /** Removing one element from a sequence that holds it. */
  function Remove(s: seq<Pos>, x: Pos): (r: seq<Pos>)
    requires x in s
    ensures |r| == |s| - 1
    ensures forall q :: q in s && q != x ==> q in r
  {
    if s[0] == x then s[1..] else [s[0]] + Remove(s[1..], x)
  }

  /** A sequence holding every cell of a duplicate-free sequence is at least as long. */
  lemma {:induction false} DistinctIncluded(d: seq<Pos>, r: seq<Pos>)
    requires Distinct(d) && forall q :: q in d ==> q in r
    ensures |d| <= |r|
  {
    if d != [] {
      assert forall i :: 0 < i < |d| ==> d[i] != d[0];
      assert forall q :: q in d[1..] ==> q in d && q != d[0];
      DistinctIncluded(d[1..], Remove(r, d[0]));
    }
  }

  /** A cell on anti-diagonal k other than the path's k-th cell is off the path. */
  lemma OffDiagonal(path: seq<Pos>, k: nat, q: Pos)
    requires MonotonePath(path) && k < |path| && InGrid(q) && q.0 + q.1 == k && q != path[k]
    ensures q !in path
  {
    forall i | 0 <= i < |path|
      ensures path[i] != q
    {
      MonotoneDiagonal(path, i);
    }
  }

  /**
   * A monotone path meets the anti-diagonal row + column == GRID_SIZE - 1
   * once, so at least four of its five cells are off the path, and there is
   * room for TRAP_COUNT traps.
   */
  lemma OffPathRoom(path: seq<Pos>, off: seq<Pos>)
    requires MonotonePath(path)
    requires forall q :: q in off <==> InGrid(q) && q !in path
    ensures |off| >= TrapCount
  {
    MonotoneDiagonal(path, |path| - 1);
    MonotoneDiagonal(path, 4);
    var a, b, c := (0, 4), (1, 3), (2, 2);
    if path[4].0 < 2 {
      a, b := (3, 1), (4, 0);
    } else if path[4].0 == 2 {
      c := (3, 1);
    }
    OffDiagonal(path, 4, a);
    OffDiagonal(path, 4, b);
    OffDiagonal(path, 4, c);
    DistinctIncluded([a, b, c], off);
  }

  /** Some index below n is not yet picked when fewer than n are. */
  lemma {:induction false} RangeEscapes(picked: set<int>, n: nat)
    requires |picked| < n
    ensures exists i :: 0 <= i < n && i !in picked
  {
    if n - 1 in picked {
      RangeEscapes(picked - {n - 1}, n - 1);
    } else {
      assert 0 <= n - 1 < n;
    }
  }

  /**
   * random.sample(off_path, k) with k = min(TRAP_COUNT, len(off_path)),
   * turned into a set: k distinct positions of the list are drawn, so the
   * traps are k distinct off-path cells.
   */
  method SampleTraps(offPath: seq<Pos>) returns (traps: set<Pos>)
    ensures forall q :: q in traps ==> q in offPath
    ensures Distinct(offPath) ==> |traps| == if TrapCount < |offPath| then TrapCount else |offPath|
  {
    var k := if TrapCount < |offPath| then TrapCount else |offPath|;
    var picked: set<int> := {};
    traps := {};
    while |picked| < k
      invariant forall i :: i in picked ==> 0 <= i < |offPath|
      invariant |picked| <= k
      invariant forall q :: q in traps <==> exists i :: i in picked && offPath[i] == q
      invariant Distinct(offPath) ==> |traps| == |picked|
      decreases k - |picked|
    {
      RangeEscapes(picked, |offPath|);
      var i :| 0 <= i < |offPath| && i !in picked;
      assert Distinct(offPath) ==> offPath[i] !in traps;
      picked, traps := picked + {i}, traps + {offPath[i]};
    }
  }

  /**
   * One cell of the scramble: draw 0 to 3 turns (random.randint(0, 3)) and
   * rotate the cell that many times.  Nothing else changes.
   */
  method ScrambleCell(grid: array2<Tile>, r: int, c: int) returns (turns: int)
    requires IsGrid(grid) && 0 <= r < GridSize && 0 <= c < GridSize
    modifies grid
    ensures 0 <= turns <= 3
    ensures grid[r, c] == RotateTimes(old(grid[r, c]), turns)
    ensures forall i, j :: 0 <= i < GridSize && 0 <= j < GridSize && (i, j) != (r, c) ==>
              grid[i, j] == old(grid[i, j])
  {
    turns :| 0 <= turns <= 3;
    for n := 0 to turns
      invariant grid[r, c] == RotateTimes(old(grid[r, c]), n)
      invariant forall i, j :: 0 <= i < GridSize && 0 <= j < GridSize && (i, j) != (r, c) ==>
                  grid[i, j] == old(grid[i, j])
    {
      grid[r, c] := Rotate(grid[r, c]);
    }
  }

  /**
   * The scramble: every cell, row by row, is turned 0 to 3 times.  `turns`
   * records how often; every cell ends in the rotation orbit of its old tile.
   */
  method Scramble(grid: array2<Tile>) returns (ghost turns: map<Pos, int>)
    requires IsGrid(grid)
    modifies grid
    ensures forall i, j :: 0 <= i < GridSize && 0 <= j < GridSize ==>
              (i, j) in turns && 0 <= turns[(i, j)] <= 3 && grid[i, j] == RotateTimes(old(grid[i, j]), turns[(i, j)])
    ensures forall i, j :: 0 <= i < GridSize && 0 <= j < GridSize ==> grid[i, j] in Orbit(old(grid[i, j]))
  {
    turns := map[];
    for r := 0 to GridSize
      invariant forall i, j :: 0 <= i < r && 0 <= j < GridSize ==>
                  (i, j) in turns && 0 <= turns[(i, j)] <= 3 && grid[i, j] == RotateTimes(old(grid[i, j]), turns[(i, j)])
      invariant forall i, j :: r <= i < GridSize && 0 <= j < GridSize ==> grid[i, j] == old(grid[i, j])
    {
      for c := 0 to GridSize
        invariant forall i, j :: (0 <= i < r && 0 <= j < GridSize) || (i == r && 0 <= j < c) ==>
                    (i, j) in turns && 0 <= turns[(i, j)] <= 3 && grid[i, j] == RotateTimes(old(grid[i, j]), turns[(i, j)])
        invariant forall i, j :: (r < i < GridSize && 0 <= j < GridSize) || (i == r && c <= j < GridSize) ==>
                    grid[i, j] == old(grid[i, j])
      {
        var n := ScrambleCell(grid, r, c);
        turns := turns[(r, c) := n];
      }
    }
    forall i, j | 0 <= i < GridSize && 0 <= j < GridSize
      ensures grid[i, j] in Orbit(old(grid[i, j]))
    {
      RotateTimesInOrbit(old(grid[i, j]), turns[(i, j)]);
    }
  }

  /** breakable: the path cells other than ENTRY and EXIT, in path order. */
  function Breakable(path: seq<Pos>): (cells: seq<Pos>)
    ensures forall q :: q in cells <==> q in path && q != Entry && q != Exit
  {
    if path == [] then []
    else (if path[0] == Entry || path[0] == Exit then [] else [path[0]]) + Breakable(path[1..])
  }

  /**
   * The optional break step: when the scrambled grid is already solved,
   * turn one randomly chosen path cell other than ENTRY and EXIT a quarter
   * clockwise; otherwise change nothing.  `turned` names the cell turned.
   */
  method BreakIfSolved(grid: array2<Tile>, traps: set<Pos>, path: seq<Pos>) returns (turned: Option<Pos>)
    requires IsGrid(grid)
    requires forall i :: 0 <= i < |path| ==> InGrid(path[i])
    modifies grid
    ensures turned.Some? <==> Solved(old(BoardOf(grid)), traps) && |Breakable(path)| > 0
    ensures turned.Some? ==> turned.value in path && turned.value != Entry && turned.value != Exit
    ensures turned.Some? ==> grid[turned.value.0, turned.value.1] == Rotate(old(grid[turned.value.0, turned.value.1]))
    ensures forall i, j :: 0 <= i < GridSize && 0 <= j < GridSize && Some((i, j)) != turned ==>
              grid[i, j] == old(grid[i, j])
  {
    turned := None;
    var solvedNow := IsSolved(grid, traps);
    if solvedNow {
      var breakable := Breakable(path);
      if |breakable| > 0 {
        assert breakable[0] in breakable;
        var cell :| cell in breakable;
        RotateTile(grid, cell.0, cell.1);
        turned := Some(cell);
      }
    }
  }

  /**
   * Steps 1 to 4 of circuit_override's set-up (lines 236-250): build the
   * path, sample the traps off it, lay the solution tiles over the random
   * fill (the grid's prior contents) and assert that the grid is solvable.
   */
  method LaySolvableGrid(grid: array2<Tile>) returns (path: seq<Pos>, traps: set<Pos>)
    requires IsGrid(grid)
    modifies grid
    ensures MonotonePath(path) && |path| == 2 * (GridSize - 1) + 1
    ensures |traps| == TrapCount
    ensures forall q :: q in traps ==> InGrid(q) && q !in path
    ensures forall i, j :: 0 <= i < GridSize && 0 <= j < GridSize ==>
              grid[i, j] == if (i, j) in path then ChooseTile(Need(path, (i, j))) else old(grid[i, j])
    ensures Solved(BoardOf(grid), traps)
  {
    path := BuildSolutionPath();
    var offPath := OffPathCells(path);
    traps := SampleTraps(offPath);
    OffPathRoom(path, offPath);
    PlaceSolutionTiles(grid, path);
    PlacedPathIsWalk(BoardOf(grid), traps, path);
    var solvable := IsSolved(grid, traps);
    assert solvable;
  }

  /**
   * circuit_override's whole set-up (lines 236-265): a solvable grid, then
   * the scramble and the break.  `placed` is the grid as it stood when the
   * solvability assertion held; every final tile is a rotation of it.
   */
  method Generate(grid: array2<Tile>) returns (path: seq<Pos>, traps: set<Pos>, ghost placed: Board)
    requires IsGrid(grid)
    modifies grid
    ensures MonotonePath(path) && |path| == 2 * (GridSize - 1) + 1
    ensures |traps| == TrapCount
    ensures forall q :: q in traps ==> InGrid(q) && q !in path
    ensures IsBoard(placed) && Solved(placed, traps)
    ensures forall i, j :: 0 <= i < GridSize && 0 <= j < GridSize ==>
              placed[i][j] == if (i, j) in path then ChooseTile(Need(path, (i, j))) else old(grid[i, j])
    ensures forall i, j :: 0 <= i < GridSize && 0 <= j < GridSize ==> grid[i, j] in Orbit(placed[i][j])
  {
    path, traps := LaySolvableGrid(grid);
    placed := BoardOf(grid);
    ghost var turns := Scramble(grid);
    ghost var scrambled := BoardOf(grid);
    var turned := BreakIfSolved(grid, traps, path);
    forall i, j | 0 <= i < GridSize && 0 <= j < GridSize
      ensures grid[i, j] in Orbit(placed[i][j])
    {
      if Some((i, j)) == turned {
        OrbitClosed(scrambled[i][j], placed[i][j]);
      }
    }
  }

  /** A board with the tile at `b` turned a quarter clockwise. */
  function Turned(g: Board, b: Pos): (g': Board)
    requires IsBoard(g) && InGrid(b)
    ensures IsBoard(g')
  {
    g[b.0 := g[b.0][b.1 := Rotate(g[b.0][b.1])]]
  }

  /** The path the generator may lay: down the first column, then along the last row. */
  const DownThenAcross: seq<Pos> := [(0, 0), (1, 0), (2, 0), (3, 0), (4, 0), (4, 1), (4, 2), (4, 3), (4, 4)]

  /** The route along the first row, then down the last column. */
  const AcrossThenDown: seq<Pos> := [(0, 0), (0, 1), (0, 2), (0, 3), (0, 4), (1, 4), (2, 4), (3, 4), (4, 4)]

  /** Traps the sample may draw off DownThenAcross. */
  const InnerTraps: set<Pos> := {(1, 1), (2, 1), (3, 1)}

  /** DownThenAcross is a path the generator can build, and InnerTraps lie off it. */
  lemma DownThenAcrossIsPath()
    ensures MonotonePath(DownThenAcross)
    ensures forall q :: q in InnerTraps ==> InGrid(q) && q !in DownThenAcross
  {
  }

  /**
   * The break step does not always leave the grid unsolved: with the path
   * DownThenAcross, traps off it, and crosses (which the random fill may
   * lay) on the cells of AcrossThenDown, turning any breakable path cell
   * leaves the route AcrossThenDown open.
   */
  lemma BreakCanLeaveSolved(g: Board, b: Pos)
    requires IsBoard(g)
    requires forall i :: 0 < i < |AcrossThenDown| - 1 ==> g[AcrossThenDown[i].0][AcrossThenDown[i].1] == Cross
    requires b in DownThenAcross && b != Entry && b != Exit
    ensures Solved(Turned(g, b), InnerTraps)
  {
    var g' := Turned(g, b);
    var w := AcrossThenDown;
    assert b.0 > 0 && b.1 < GridSize - 1;
    forall i | 0 <= i < |w| - 1
      ensures Link(g', w[i], w[i + 1])
    {
      CrossStepLinks(g', w, i);
    }
    WalkSolves(g', InnerTraps, w);
  }

  /** Along AcrossThenDown, crosses and the wildcard ends link up. */
  lemma CrossStepLinks(g: Board, w: seq<Pos>, i: int)
    requires IsBoard(g) && w == AcrossThenDown && 0 <= i < |w| - 1
    requires forall k :: 0 < k < |w| - 1 ==> g[w[k].0][w[k].1] == Cross
    ensures Link(g, w[i], w[i + 1])
  {
    var d := if i < 4 then E else S;
    assert Step(w[i], d) == w[i + 1];
    assert d in Connections(Cross) && Opposite(d) in Connections(Cross);
    LinkByArms(g, w[i], d);
  }
}
