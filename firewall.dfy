/**
 * The firewall maze (packages/games/firewall_matrix_breach.py): the wall
 * map, the breadth-first route finder that shows the player a shortest way
 * from (1, 1) to the exit, and the player's wall-blocked move.
 */
module FirewallMaze {
  import opened Wrappers

  /** A (row, column) coordinate, zero-based. */
  type Pos = (int, int)

  /** The map: one string per row; '#' is a wall, 'X' the exit. */
  type Maze = seq<string>

  const WallIcon: char := '#'
  const ExitIcon: char := 'X'

  /** Where the player starts and where the route search starts. */
  const Start: Pos := (1, 1)

  /** MAZE_MAP. */
  const MazeMap: Maze := [
    "##################################",
    "#.....#.......##.......#.........#",
    "#.###.#.#####.##.###.#.#.###.###.#",
    "#.#...#.#...#.##...#.#.#...#...#.#",
    "#.#.###.#.#.#.#####.#.#####.#.#.##",
    "#.#.....#.#.#.....#.#.......#.#.##",
    "#.#.#####.#.#####...#########.#.##",
    "#.#.....#.#.....#.#.#.......#.#.##",
    "#.#.###.#.#####.#.#.#.#####.#.#.##",
    "#.#...#.#...#...#.#.#.#...#.#...##",
    "#.###.#.###.#####.#.#.#.#.#.######",
    "#.....#...........#...#.#.......##",
    "#####.###############.#.###.###.##",
    "#.........#.........#.#.......#.##",
    "#.#.#######.#######.#.#######.#.##",
    "#.#.........#.....#.#.........#X##",
    "##################################"
  ]

  /**
   * What the route finder relies on: every row as long as the first, and
   * room for the start cell (1, 1).
   */
  predicate WellFormed(maze: Maze)
  {
    && |maze| >= 2
    && |maze[0]| >= 2
    && forall i :: 0 <= i < |maze| ==> |maze[i]| == |maze[0]|
  }

  predicate InMaze(maze: Maze, p: Pos)
    requires WellFormed(maze)
  {
    0 <= p.0 < |maze| && 0 <= p.1 < |maze[0]|
  }

  /** A cell the player and the search may enter. */
  predicate Open(maze: Maze, p: Pos)
    requires WellFormed(maze)
  {
    InMaze(maze, p) && maze[p.0][p.1] != WallIcon
  }

  /** The four moves, in the order find_route tries them: up, down, left, right. */
  function Delta(k: nat): Pos
    requires k < 4
  {
    if k == 0 then (-1, 0) else if k == 1 then (1, 0) else if k == 2 then (0, -1) else (0, 1)
  }

  function Plus(p: Pos, d: Pos): Pos
  {
    (p.0 + d.0, p.1 + d.1)
  }

  /** `q` is a 4-neighbour of `p`. */
  predicate Adjacent(p: Pos, q: Pos)
  {
    || q == Plus(p, Delta(0)) || q == Plus(p, Delta(1))
    || q == Plus(p, Delta(2)) || q == Plus(p, Delta(3))
  }

  /**
   * A route: it starts at (1, 1), every later cell is an open cell of the
   * maze, and consecutive cells are 4-neighbours.  The start cell itself is
   * never checked for a wall, as in find_route.
   */
  ghost predicate IsRoute(maze: Maze, w: seq<Pos>)
    requires WellFormed(maze)
  {
    && |w| > 0
    && w[0] == Start
    && (forall i :: 0 < i < |w| ==> Open(maze, w[i]))
    && (forall i :: 0 <= i < |w| - 1 ==> Adjacent(w[i], w[i + 1]))
  }

  ghost predicate Reachable(maze: Maze, p: Pos)
    requires WellFormed(maze)
  {
    exists w :: IsRoute(maze, w) && w[|w| - 1] == p
  }

  /** The index of the first `ch` in `s`, or |s| when there is none. */
  function FirstIndex(s: string, ch: char): (r: nat)
    ensures r <= |s|
    ensures r < |s| ==> s[r] == ch
    ensures forall j :: 0 <= j < r ==> s[j] != ch
  {
    if s == [] then 0
    else if s[0] == ch then 0
    else 1 + FirstIndex(s[1..], ch)
  }

  /** The last of the first n rows that holds an exit icon. */
  function LastExitRow(maze: Maze, n: nat): (r: Option<nat>)
    requires n <= |maze|
    ensures r.Some? ==> r.value < n && ExitIcon in maze[r.value]
    ensures r.Some? ==> forall i :: r.value < i < n ==> ExitIcon !in maze[i]
    ensures r.None? ==> forall i :: 0 <= i < n ==> ExitIcon !in maze[i]
  {
    if n == 0 then None
    else if ExitIcon in maze[n - 1] then Some(n - 1)
    else LastExitRow(maze, n - 1)
  }

  /**
   * The cell find_route aims for among the first n rows: its `break` leaves
   * only the column loop, so a later row with an exit icon overrides an
   * earlier one; (0, 0) when no row has one.
   */
  function ExitAmong(maze: Maze, n: nat): Pos
    requires n <= |maze|
  {
    match LastExitRow(maze, n)
    case None => (0, 0)
    case Some(r) => (r, FirstIndex(maze[r], ExitIcon))
  }

  /**
   * The exit find_route settles on: the first exit icon of the last row that
   * has one, or (0, 0) when the map has no exit icon.
   */
  lemma ExitCellIsExit(maze: Maze)
    requires WellFormed(maze)
    ensures InMaze(maze, ExitAmong(maze, |maze|))
    ensures (exists i, j :: 0 <= i < |maze| && 0 <= j < |maze[i]| && maze[i][j] == ExitIcon) ==>
              var (r, c) := ExitAmong(maze, |maze|);
              && maze[r][c] == ExitIcon
              && (forall j :: 0 <= j < c ==> maze[r][j] != ExitIcon)
              && (forall i, j :: r < i < |maze| && 0 <= j < |maze[i]| ==> maze[i][j] != ExitIcon)
    ensures (forall i, j :: 0 <= i < |maze| && 0 <= j < |maze[i]| ==> maze[i][j] != ExitIcon) ==>
              ExitAmong(maze, |maze|) == (0, 0)
  {
    var e := LastExitRow(maze, |maze|);
    if e.Some? {
      assert FirstIndex(maze[e.value], ExitIcon) < |maze[e.value]|;
    } else {
      forall i, j | 0 <= i < |maze| && 0 <= j < |maze[i]|
        ensures maze[i][j] != ExitIcon
      {
        assert ExitIcon !in maze[i];
      }
    }
  }

  /** The exit search at the head of find_route: nested loops whose `break` leaves the column loop. */
  method FindExit(maze: Maze) returns (end: Pos)
    requires WellFormed(maze)
    ensures end == ExitAmong(maze, |maze|)
  {
    var rows, cols := |maze|, |maze[0]|;
    end := (0, 0);
    for r := 0 to rows
      invariant end == ExitAmong(maze, r)
    {
      var c := 0;
      while c < cols
        invariant 0 <= c <= cols
        invariant forall j :: 0 <= j < c ==> maze[r][j] != ExitIcon
        invariant end == ExitAmong(maze, r)
      {
        if maze[r][c] == ExitIcon {
          end := (r, c);
          break;
        }
        c := c + 1;
      }
      if c == cols {
        assert ExitIcon !in maze[r];
      } else {
        assert FirstIndex(maze[r], ExitIcon) == c;
      }
    }
  }

  /** A route cut short is still a route. */
  lemma RoutePrefix(maze: Maze, w: seq<Pos>, n: nat)
    requires WellFormed(maze) && IsRoute(maze, w) && 0 < n <= |w|
    ensures IsRoute(maze, w[..n])
  {
  }

  /** Every cell of the maze. */
  function AllCells(maze: Maze): set<Pos>
    requires WellFormed(maze)
  {
    set r, c | 0 <= r < |maze| && 0 <= c < |maze[0]| :: (r, c)
  }

  /*
   * The search is specified over a ghost map `dist` whose keys are the
   * visited cells and whose values are their breadth-first depths.
   */

  /**
   * The breadth-first search tree: the start is visited at depth 0, every
   * visited cell lies in the maze, and every visited cell but the start is
   * open and has a visited predecessor one step closer to the start.
   */
  ghost predicate Tree(maze: Maze, dist: map<Pos, nat>, prev: map<Pos, Pos>)
    requires WellFormed(maze)
  {
    && Start in dist && dist[Start] == 0
    && (forall v :: v in dist ==> InMaze(maze, v))
    && (forall v :: v in dist && v != Start ==> Open(maze, v) && v in prev)
    && (forall v {:trigger prev[v]} :: v in dist && v != Start && v in prev ==>
          prev[v] in dist && Adjacent(prev[v], v) && dist[v] == dist[prev[v]] + 1)
  }

  /** The visited matrix marks exactly the visited cells. */
  ghost predicate Marked(maze: Maze, visited: array2<bool>, dist: map<Pos, nat>)
    requires WellFormed(maze)
    requires visited.Length0 == |maze| && visited.Length1 == |maze[0]|
    reads visited
  {
    forall r, c :: 0 <= r < |maze| && 0 <= c < |maze[0]| ==> (visited[r, c] <==> (r, c) in dist)
  }

  /** Every route of at most `level` steps ends at a visited cell no deeper than its length. */
  ghost predicate ShortestUpTo(maze: Maze, dist: map<Pos, nat>, level: int)
    requires WellFormed(maze)
  {
    forall w :: IsRoute(maze, w) && |w| - 1 <= level ==> w[|w| - 1] in dist && dist[w[|w| - 1]] <= |w| - 1
  }

  /**
   * The search front: visited cells are expanded or queued; the queue is
   * ordered by depth and spans depths `level` and `level` + 1; expanded
   * cells are no deeper than `level`, their open neighbours are visited,
   * and the exit has not been expanded.
   */
  ghost predicate Frontier(maze: Maze, end: Pos, done: set<Pos>, queue: seq<Pos>, dist: map<Pos, nat>, level: int)
    requires WellFormed(maze)
  {
    && (forall v :: v in dist <==> v in done || v in queue)
    && (forall i, j :: 0 <= i < j < |queue| ==> dist[queue[i]] <= dist[queue[j]])
    && (forall i :: 0 <= i < |queue| ==> level <= dist[queue[i]] <= level + 1)
    && (forall v :: v in done ==> dist[v] <= level)
    && (forall v, u :: v in done && Adjacent(v, u) && Open(maze, u) ==> u in dist)
    && end !in done
  }

  /**
   * Popping the head of the queue raises the level to its depth, and every
   * route of up to that many steps already ends at a visited cell.
   */
  lemma PopStep(maze: Maze, end: Pos, done: set<Pos>, queue: seq<Pos>, dist: map<Pos, nat>, level: int)
    requires WellFormed(maze) && |queue| > 0 && level >= 0
    requires Frontier(maze, end, done, queue, dist, level)
    requires ShortestUpTo(maze, dist, level)
    ensures level <= dist[queue[0]] <= level + 1
    ensures ShortestUpTo(maze, dist, dist[queue[0]])
    ensures forall i :: 1 <= i < |queue| ==> dist[queue[0]] <= dist[queue[i]] <= dist[queue[0]] + 1
  {
    var top := dist[queue[0]];
    forall w | IsRoute(maze, w) && |w| - 1 <= top
      ensures w[|w| - 1] in dist && dist[w[|w| - 1]] <= |w| - 1
    {
      if |w| - 1 > level {
        var n := |w| - 1;
        RoutePrefix(maze, w, n);
        assert w[..n][n - 1] == w[n - 1];
        var x := w[n - 1];
        assert x in dist && dist[x] <= level;
        assert Adjacent(x, w[n]);
      }
    }
  }

  /** Each of the four moves reaches a neighbour. */
  lemma DeltaAdjacent(p: Pos, k: nat)
    requires k < 4
    ensures Adjacent(p, Plus(p, Delta(k)))
  {
  }

  /** The open cells among the first k neighbours of `cur` are visited. */
  ghost predicate Covered(maze: Maze, cur: Pos, k: nat, dist: map<Pos, nat>)
    requires WellFormed(maze) && k <= 4
  {
    forall j :: 0 <= j < k ==> Open(maze, Plus(cur, Delta(j))) ==> Plus(cur, Delta(j)) in dist
  }

  lemma CoveredStep(maze: Maze, cur: Pos, k: nat, dist: map<Pos, nat>, dist': map<Pos, nat>)
    requires WellFormed(maze) && k < 4 && Covered(maze, cur, k, dist)
    requires dist.Keys <= dist'.Keys && (Open(maze, Plus(cur, Delta(k))) ==> Plus(cur, Delta(k)) in dist')
    ensures Covered(maze, cur, k + 1, dist')
  {
  }

  /** Once all four moves are tried, every open neighbour of `cur` is visited. */
  lemma CoveredAll(maze: Maze, cur: Pos, dist: map<Pos, nat>)
    requires WellFormed(maze) && Covered(maze, cur, 4, dist)
    ensures forall u :: Adjacent(cur, u) && Open(maze, u) ==> u in dist
  {
    forall u | Adjacent(cur, u) && Open(maze, u)
      ensures u in dist
    {
      if u == Plus(cur, Delta(0)) {
      } else if u == Plus(cur, Delta(1)) {
      } else if u == Plus(cur, Delta(2)) {
      } else {
        assert u == Plus(cur, Delta(3));
      }
    }
  }

  /**
   * What one expansion of `cur` may do to the search state: keep every
   * visited cell and its depth, and append to the queue only cells that are
   * newly visited at depth dist[cur] + 1.
   */
  ghost predicate Extends(cur: Pos, queue: seq<Pos>, dist: map<Pos, nat>, queue': seq<Pos>, dist': map<Pos, nat>)
    requires cur in dist
  {
    && (forall v :: v in dist ==> v in dist' && dist'[v] == dist[v])
    && |queue'| >= |queue| && queue'[..|queue|] == queue
    && (forall i :: |queue| <= i < |queue'| ==> queue'[i] in dist' && dist'[queue'[i]] == dist[cur] + 1)
    && (forall v :: v in dist' ==> v in dist || v in queue'[|queue|..])
    && (|queue'| > |queue| ==> queue'[|queue|] !in dist)
  }

  /** Visiting one more open neighbour of `cur` keeps the search tree. */
  lemma VisitKeepsTree(maze: Maze, cur: Pos, next: Pos, prev: map<Pos, Pos>, dist: map<Pos, nat>)
    requires WellFormed(maze) && Tree(maze, dist, prev) && cur in dist
    requires next !in dist && Open(maze, next) && Adjacent(cur, next)
    ensures Tree(maze, dist[next := dist[cur] + 1], prev[next := cur])
  {
  }

  /** Queueing one more newly visited cell keeps the extension. */
  lemma VisitKeepsExtends(cur: Pos, next: Pos, queue: seq<Pos>, dist: map<Pos, nat>,
                          queue': seq<Pos>, dist': map<Pos, nat>)
    requires cur in dist && next !in dist'
    requires Extends(cur, queue, dist, queue', dist')
    ensures Extends(cur, queue, dist, queue' + [next], dist'[next := dist[cur] + 1])
  {
    var q2 := queue' + [next];
    assert q2[..|queue|] == queue'[..|queue|];
    assert q2[|queue|..] == queue'[|queue|..] + [next];
  }

  /** visited[nr][nc] = True */
  method Mark(maze: Maze, visited: array2<bool>, ghost dist: map<Pos, nat>, next: Pos, ghost d: nat)
    requires WellFormed(maze) && visited.Length0 == |maze| && visited.Length1 == |maze[0]|
    requires Marked(maze, visited, dist) && InMaze(maze, next)
    modifies visited
    ensures Marked(maze, visited, dist[next := d])
  {
    visited[next.0, next.1] := true;
    forall r, c | 0 <= r < |maze| && 0 <= c < |maze[0]|
      ensures visited[r, c] <==> (r, c) in dist[next := d]
    {
      if (r, c) != next {
        assert visited[r, c] == old(visited[r, c]);
      }
    }
  }

  /**
   * Visit a new open neighbour `next` of `cur`: mark it, record `cur` as its
   * predecessor and queue it.
   */
  method Visit(maze: Maze, visited: array2<bool>, cur: Pos, next: Pos,
               ghost queue0: seq<Pos>, ghost dist0: map<Pos, nat>,
               queue: seq<Pos>, prev: map<Pos, Pos>, ghost dist: map<Pos, nat>)
    returns (queue': seq<Pos>, prev': map<Pos, Pos>, ghost dist': map<Pos, nat>)
    requires WellFormed(maze) && visited.Length0 == |maze| && visited.Length1 == |maze[0]|
    requires Tree(maze, dist, prev) && Marked(maze, visited, dist)
    requires Adjacent(cur, next) && Open(maze, next) && next !in dist
    requires cur in dist0 && cur in dist && dist0[cur] == dist[cur]
    requires Extends(cur, queue0, dist0, queue, dist)
    modifies visited
    ensures Tree(maze, dist', prev') && Marked(maze, visited, dist')
    ensures Extends(cur, queue0, dist0, queue', dist')
    ensures dist' == dist[next := dist[cur] + 1]
  {
    VisitKeepsTree(maze, cur, next, prev, dist);
    VisitKeepsExtends(cur, next, queue0, dist0, queue, dist);
    Mark(maze, visited, dist, next, dist[cur] + 1);
    prev' := prev[next := cur];
    queue' := queue + [next];
    dist' := dist[next := dist[cur] + 1];
  }

  /**
   * One pass of the inner loop of find_route: a neighbour inside the maze,
   * not yet visited and not a wall is visited.
   */
  method TryNeighbour(maze: Maze, visited: array2<bool>, cur: Pos, next: Pos,
                      ghost queue0: seq<Pos>, ghost dist0: map<Pos, nat>,
                      queue: seq<Pos>, prev: map<Pos, Pos>, ghost dist: map<Pos, nat>)
    returns (queue': seq<Pos>, prev': map<Pos, Pos>, ghost dist': map<Pos, nat>)
    requires WellFormed(maze) && visited.Length0 == |maze| && visited.Length1 == |maze[0]|
    requires Tree(maze, dist, prev) && Marked(maze, visited, dist)
    requires Adjacent(cur, next) && cur in dist0 && cur in dist && dist0[cur] == dist[cur]
    requires Extends(cur, queue0, dist0, queue, dist)
    modifies visited
    ensures Tree(maze, dist', prev') && Marked(maze, visited, dist')
    ensures Extends(cur, queue0, dist0, queue', dist')
    ensures dist.Keys <= dist'.Keys && (Open(maze, next) ==> next in dist')
    ensures cur in dist' && dist'[cur] == dist[cur]
  {
    if 0 <= next.0 < |maze| && 0 <= next.1 < |maze[0]| && !visited[next.0, next.1] && maze[next.0][next.1] != WallIcon {
      queue', prev', dist' := Visit(maze, visited, cur, next, queue0, dist0, queue, prev, dist);
    } else {
      queue', prev', dist' := queue, prev, dist;
    }
  }

  /**
   * The inner loop of find_route: try the four neighbours of `cur` in order
   * up, down, left, right.
   */
  method Expand(maze: Maze, visited: array2<bool>, cur: Pos, queue: seq<Pos>, prev: map<Pos, Pos>,
                ghost dist: map<Pos, nat>)
    returns (queue': seq<Pos>, prev': map<Pos, Pos>, ghost dist': map<Pos, nat>)
    requires WellFormed(maze) && visited.Length0 == |maze| && visited.Length1 == |maze[0]|
    requires Tree(maze, dist, prev) && Marked(maze, visited, dist) && cur in dist
    modifies visited
    ensures Tree(maze, dist', prev') && Marked(maze, visited, dist')
    ensures Extends(cur, queue, dist, queue', dist')
    ensures forall u :: Adjacent(cur, u) && Open(maze, u) ==> u in dist'
  {
    queue', prev', dist' := queue, prev, dist;
    assert queue'[|queue|..] == [];
    for k := 0 to 4
      invariant Tree(maze, dist', prev') && Marked(maze, visited, dist')
      invariant Extends(cur, queue, dist, queue', dist')
      invariant cur in dist' && dist'[cur] == dist[cur]
      invariant Covered(maze, cur, k, dist')
    {
      var next := Plus(cur, Delta(k));
      DeltaAdjacent(cur, k);
      ghost var before := dist';
      queue', prev', dist' := TryNeighbour(maze, visited, cur, next, queue, dist, queue', prev', dist');
      CoveredStep(maze, cur, k, before, dist');
    }
    CoveredAll(maze, cur, dist');
  }

  /**
   * After expanding the popped head `queue[0]`, the search front holds again
   * one level further on: the head joins the expanded cells and its newly
   * visited neighbours join the back of the queue.
   */
  lemma ExpandStep(maze: Maze, end: Pos, done: set<Pos>, queue: seq<Pos>, dist: map<Pos, nat>, level: int,
                   dist': map<Pos, nat>, queue': seq<Pos>)
    requires WellFormed(maze) && |queue| > 0 && queue[0] != end
    requires Frontier(maze, end, done, queue, dist, level)
    requires level <= dist[queue[0]]
    requires forall i :: 1 <= i < |queue| ==> dist[queue[0]] <= dist[queue[i]] <= dist[queue[0]] + 1
    requires Extends(queue[0], queue[1..], dist, queue', dist')
    requires forall u :: Adjacent(queue[0], u) && Open(maze, u) ==> u in dist'
    ensures Frontier(maze, end, done + {queue[0]}, queue', dist', dist[queue[0]])
  {
    var cur, rest := queue[0], queue[1..];
    var top := dist[cur];
    forall v | v in dist'
      ensures v in done + {cur} || v in queue'
    {
      if v in dist {
        if v in queue && v != cur {
          var i :| 0 <= i < |queue| && queue[i] == v;
          assert rest[i - 1] == v;
          assert queue'[i - 1] == v;
        }
      } else {
        var j :| 0 <= j < |queue'[|rest|..]| && queue'[|rest|..][j] == v;
        assert queue'[|rest| + j] == v;
      }
    }
    ExpandKeepsOrder(queue, dist, dist', queue');
  }

  /** Appending cells one level below the popped head keeps the queue ordered by depth. */
  lemma ExpandKeepsOrder(queue: seq<Pos>, dist: map<Pos, nat>, dist': map<Pos, nat>, queue': seq<Pos>)
    requires |queue| > 0 && queue[0] in dist
    requires forall i :: 0 <= i < |queue| ==> queue[i] in dist
    requires forall i, j :: 0 <= i < j < |queue| ==> dist[queue[i]] <= dist[queue[j]]
    requires forall i :: 1 <= i < |queue| ==> dist[queue[0]] <= dist[queue[i]] <= dist[queue[0]] + 1
    requires Extends(queue[0], queue[1..], dist, queue', dist')
    ensures forall i :: 0 <= i < |queue'| ==> queue'[i] in dist'
    ensures forall i, j :: 0 <= i < j < |queue'| ==> dist'[queue'[i]] <= dist'[queue'[j]]
    ensures forall i :: 0 <= i < |queue'| ==> dist[queue[0]] <= dist'[queue'[i]] <= dist[queue[0]] + 1
  {
    var rest := queue[1..];
    var top := dist[queue[0]];
    forall i | 0 <= i < |queue'|
      ensures queue'[i] in dist' && top <= dist'[queue'[i]] <= top + 1
    {
      if i < |rest| {
        assert queue'[..|rest|][i] == queue[i + 1];
      }
    }
    forall i, j | 0 <= i < j < |queue'|
      ensures dist'[queue'[i]] <= dist'[queue'[j]]
    {
      if j < |rest| {
        assert queue'[..|rest|][i] == queue[i + 1] && queue'[..|rest|][j] == queue[j + 1];
      } else if i < |rest| {
        assert queue'[..|rest|][i] == queue[i + 1];
      }
    }
  }

  /** Breadth-first search visits a new cell or shortens the queue. */
  lemma Progress(maze: Maze, cur: Pos, rest: seq<Pos>, dist: map<Pos, nat>, queue': seq<Pos>, dist': map<Pos, nat>)
    requires WellFormed(maze) && cur in dist
    requires forall v :: v in dist' ==> InMaze(maze, v)
    requires Extends(cur, rest, dist, queue', dist')
    ensures AllCells(maze) - dist'.Keys < AllCells(maze) - dist.Keys
         || (dist'.Keys == dist.Keys && |queue'| == |rest|)
  {
    if |queue'| > |rest| {
      var v := queue'[|rest|];
      assert v in dist' && v !in dist;
      assert v in AllCells(maze) - dist.Keys;
    } else {
      assert queue'[|rest|..] == [];
    }
  }

  /** A visited set closed under open neighbours holds the end of every route. */
  lemma ClosedHoldsRoutes(maze: Maze, seen: set<Pos>, w: seq<Pos>)
    requires WellFormed(maze) && Start in seen
    requires forall v, u :: v in seen && Adjacent(v, u) && Open(maze, u) ==> u in seen
    requires IsRoute(maze, w)
    ensures w[|w| - 1] in seen
    decreases |w|
  {
    if |w| > 1 {
      RoutePrefix(maze, w, |w| - 1);
      ClosedHoldsRoutes(maze, seen, w[..|w| - 1]);
      assert w[..|w| - 1][|w| - 2] == w[|w| - 2];
    }
  }

  /** The sequence read back to front (Python's list.reverse). */
  function Reverse<T>(s: seq<T>): (r: seq<T>)
    ensures |r| == |s|
    ensures forall i :: 0 <= i < |s| ==> r[i] == s[|s| - 1 - i]
  {
    if s == [] then [] else Reverse(s[1..]) + [s[0]]
  }

  /** Consecutive cells of `back` are 4-neighbours, read from back to front. */
  predicate BackChain(back: seq<Pos>)
  {
    forall i :: 0 <= i < |back| - 1 ==> Adjacent(back[i + 1], back[i])
  }

  lemma BackChainSnoc(back: seq<Pos>, p: Pos)
    requires BackChain(back) && (back != [] ==> Adjacent(p, back[|back| - 1]))
    ensures BackChain(back + [p])
  {
    var b := back + [p];
    forall i | 0 <= i < |b| - 1
      ensures Adjacent(b[i + 1], b[i])
    {
      if i + 1 < |back| {
        assert b[i + 1] == back[i + 1] && b[i] == back[i];
      }
    }
  }

  /** Reversing a back-to-front chain gives a front-to-back one. */
  lemma ReverseChain(back: seq<Pos>)
    requires BackChain(back)
    ensures forall i :: 0 <= i < |back| - 1 ==> Adjacent(Reverse(back)[i], Reverse(back)[i + 1])
  {
    var r := Reverse(back);
    forall i | 0 <= i < |back| - 1
      ensures Adjacent(r[i], r[i + 1])
    {
      assert r[i] == back[|back| - 1 - i] && r[i + 1] == back[|back| - 2 - i];
    }
  }

  /**
   * The reconstruction at the end of find_route: follow the predecessors
   * from the exit back to the start, then reverse.  The route found has as
   * many steps as the exit's search depth.
   */
  method Reconstruct(maze: Maze, prev: map<Pos, Pos>, end: Pos, ghost dist: map<Pos, nat>)
    returns (path: seq<Pos>)
    requires WellFormed(maze) && Tree(maze, dist, prev) && end in dist
    ensures IsRoute(maze, path) && path[|path| - 1] == end && |path| == dist[end] + 1
  {
    var back: seq<Pos> := [];
    var cur := end;
    while cur != Start
      invariant cur in dist
      invariant |back| + dist[cur] == dist[end]
      invariant back == [] ==> cur == end
      invariant back != [] ==> back[0] == end && Adjacent(cur, back[|back| - 1])
      invariant forall i :: 0 <= i < |back| ==> Open(maze, back[i])
      invariant BackChain(back)
      decreases dist[cur]
    {
      BackChainSnoc(back, cur);
      back := back + [cur];
      cur := prev[cur];
    }
    BackChainSnoc(back, Start);
    back := back + [Start];
    ReverseChain(back);
    path := Reverse(back);
  }

  /** The state of find_route's search loop, at the head of each pass. */
  ghost predicate Searching(maze: Maze, end: Pos, visited: array2<bool>, done: set<Pos>,
                            queue: seq<Pos>, dist: map<Pos, nat>, prev: map<Pos, Pos>, level: int)
    requires WellFormed(maze)
    reads visited
  {
    && visited.Length0 == |maze| && visited.Length1 == |maze[0]|
    && Tree(maze, dist, prev) && Marked(maze, visited, dist)
    && Frontier(maze, end, done, queue, dist, level)
    && ShortestUpTo(maze, dist, level) && level >= 0
  }

  /**
   * One pass of find_route's search loop: dequeue the head; stop if it is
   * the exit, otherwise expand it.
   */
  method SearchStep(maze: Maze, end: Pos, visited: array2<bool>, queue: seq<Pos>, prev: map<Pos, Pos>,
                    ghost done: set<Pos>, ghost dist: map<Pos, nat>, ghost level: int)
    returns (stop: bool, queue': seq<Pos>, prev': map<Pos, Pos>,
             ghost done': set<Pos>, ghost dist': map<Pos, nat>, ghost level': int)
    requires WellFormed(maze) && |queue| > 0
    requires Searching(maze, end, visited, done, queue, dist, prev, level)
    modifies visited
    ensures stop ==> && visited.Length0 == |maze| && visited.Length1 == |maze[0]|
                     && Tree(maze, dist', prev') && Marked(maze, visited, dist')
                     && end in dist' && ShortestUpTo(maze, dist', dist'[end])
    ensures !stop ==> && Searching(maze, end, visited, done', queue', dist', prev', level')
                      && (AllCells(maze) - dist'.Keys < AllCells(maze) - dist.Keys
                          || (dist'.Keys == dist.Keys && |queue'| < |queue|))
  {
    var cur := queue[0];
    PopStep(maze, end, done, queue, dist, level);
    if cur == end {
      return true, queue[1..], prev, done, dist, dist[cur];
    }
    stop := false;
    queue', prev', dist' := Expand(maze, visited, cur, queue[1..], prev, dist);
    ExpandStep(maze, end, done, queue, dist, level, dist', queue');
    Progress(maze, cur, queue[1..], dist, queue', dist');
    done', level' := done + {cur}, dist[cur];
  }

  /** Once the queue runs dry, the exit is unreachable from the start. */
  lemma Exhausted(maze: Maze, end: Pos, done: set<Pos>, dist: map<Pos, nat>, prev: map<Pos, Pos>, level: int)
    requires WellFormed(maze) && Tree(maze, dist, prev)
    requires Frontier(maze, end, done, [], dist, level)
    ensures end !in dist && !Reachable(maze, end)
  {
    if Reachable(maze, end) {
      var w :| IsRoute(maze, w) && w[|w| - 1] == end;
      ClosedHoldsRoutes(maze, dist.Keys, w);
    }
  }

  /** A search depth no route can undercut is a shortest distance. */
  lemma NoShorterRoute(maze: Maze, dist: map<Pos, nat>, end: Pos)
    requires WellFormed(maze) && end in dist && ShortestUpTo(maze, dist, dist[end])
    ensures forall w :: IsRoute(maze, w) && w[|w| - 1] == end ==> dist[end] <= |w| - 1
  {
  }

  /**
   * What the search loop leaves behind: a search tree marked in the visited
   * matrix; if the exit was visited, no route to it is shorter than its
   * depth, and if it was not, it cannot be reached.
   */
  ghost predicate Searched(maze: Maze, end: Pos, visited: array2<bool>, dist: map<Pos, nat>, prev: map<Pos, Pos>)
    requires WellFormed(maze)
    reads visited
  {
    && visited.Length0 == |maze| && visited.Length1 == |maze[0]|
    && Tree(maze, dist, prev) && Marked(maze, visited, dist)
    && (end in dist ==> ShortestUpTo(maze, dist, dist[end]))
    && (end !in dist ==> !Reachable(maze, end))
  }

  /**
   * The search loop of find_route: mark the start, queue it, and run
   * passes until the queue is empty or the exit is dequeued.
   */
  method Search(maze: Maze, end: Pos, visited: array2<bool>) returns (prev: map<Pos, Pos>, ghost dist: map<Pos, nat>)
    requires WellFormed(maze) && InMaze(maze, end)
    requires visited.Length0 == |maze| && visited.Length1 == |maze[0]|
    requires forall r, c :: 0 <= r < |maze| && 0 <= c < |maze[0]| ==> !visited[r, c]
    modifies visited
    ensures Searched(maze, end, visited, dist, prev)
  {
    visited[Start.0, Start.1] := true;
    prev := map[];
    var queue: seq<Pos> := [Start];
    ghost var done: set<Pos> := {};
    dist := map[Start := 0];
    ghost var level := 0;
    ghost var reached := false;
    while |queue| > 0
      invariant Searching(maze, end, visited, done, queue, dist, prev, level)
      decreases AllCells(maze) - dist.Keys, |queue|
    {
      var stop;
      stop, queue, prev, done, dist, level := SearchStep(maze, end, visited, queue, prev, done, dist, level);
      if stop {
        reached := true;
        break;
      }
    }
    if !reached {
      Exhausted(maze, end, done, dist, prev, level);
    }
  }

  /**
   * find_route: breadth-first search from (1, 1) towards the exit cell,
   * stopping when the exit is dequeued, then the route read back from the
   * predecessor map.  It returns no route exactly when the exit cannot be
   * reached, and otherwise a shortest route from (1, 1) to the exit.
   */
  method FindRoute(maze: Maze) returns (route: Option<seq<Pos>>)
    requires WellFormed(maze)
    ensures route.None? <==> !Reachable(maze, ExitAmong(maze, |maze|))
    ensures route.Some? ==> IsRoute(maze, route.value) && route.value[|route.value| - 1] == ExitAmong(maze, |maze|)
    ensures route.Some? ==> forall w :: IsRoute(maze, w) && w[|w| - 1] == ExitAmong(maze, |maze|) ==> |route.value| <= |w|
  {
    var end := FindExit(maze);
    ExitCellIsExit(maze);
    var visited := new bool[|maze|, |maze[0]|]((r, c) => false);
    var prev;
    ghost var dist;
    prev, dist := Search(maze, end, visited);
    if !visited[end.0, end.1] {
      return None;
    }
    var path := Reconstruct(maze, prev, end, dist);
    NoShorterRoute(maze, dist, end);
    route := Some(path);
  }
}
