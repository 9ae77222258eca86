/**
 * The firewall breach game loop (packages/games/firewall_matrix_breach.py):
 * laser beams that sweep back and forth along a row or a column, the
 * player's wall-blocked move, the beam collisions that raise the alert
 * level, and the loop that ends in a breach or a lock-out.
 */
module FirewallBreach {
  import opened Wrappers
  import opened FirewallMaze

  /** ALERT_THRESHOLD: the alert level at which the breach fails. */
  const AlertThreshold: nat := 3

  datatype Orient = Horizontal | Vertical

  /**
   * One entry of LASER_BEAMS: a horizontal beam sweeps along row `line`
   * over the listed columns, a vertical one along column `line` over the
   * listed rows; `dir` is its first step along the list.
   */
  datatype BeamSpec = BeamSpec(orient: Orient, line: int, positions: seq<int>, dir: int)

  /** Python's list(range(lo, hi)). */
  function Range(lo: int, hi: int): (r: seq<int>)
    requires lo <= hi
    ensures |r| == hi - lo
    ensures forall i :: 0 <= i < |r| ==> r[i] == lo + i
  {
    seq(hi - lo, i requires 0 <= i < hi - lo => lo + i)
  }

  /** LASER_BEAMS. */
  const LaserBeams: seq<BeamSpec> := [
    BeamSpec(Horizontal, 2, Range(6, 28), 1),
    BeamSpec(Horizontal, 10, Range(2, 18), -1),
    BeamSpec(Vertical, 14, Range(3, 12), 1),
    BeamSpec(Vertical, 24, Range(5, 15), -1)
  ]

  /** What a beam needs to bounce for ever: a track of two or more places, on which it stands, and unit steps. */
  predicate Sweeping(positions: seq<int>, pos: int, dir: int)
  {
    |positions| >= 2 && pos in positions && (dir == 1 || dir == -1)
  }

  /** Every configured beam has a track of distinct places, two or more long, and unit steps. */
  lemma LaserBeamsSweep()
    ensures forall s :: s in LaserBeams ==>
              Sweeping(s.positions, s.positions[0], s.dir) && Distinct(s.positions)
  {
    forall s | s in LaserBeams
      ensures Sweeping(s.positions, s.positions[0], s.dir) && Distinct(s.positions)
    {
      assert s.positions[0] in s.positions;
    }
  }

  /** Python's list.index: the first index of `x` in `s`. */
  function IndexOf(s: seq<int>, x: int): (r: nat)
    requires x in s
    ensures r < |s| && s[r] == x
    ensures forall j :: 0 <= j < r ==> s[j] != x
  {
    if s[0] == x then 0 else 1 + IndexOf(s[1..], x)
  }

  /** The step direction update_beams uses: reversed when the step would leave the list. */
  function Turned(n: int, idx: int, dir: int): int
  {
    if idx + dir < 0 || idx + dir >= n then -dir else dir
  }

  /**
   * The beam can take one update_beams step without an exception: it
   * stands on its track, and the step after any reversal is a valid Python
   * index (a negative index counts from the end).
   */
  predicate CanAdvance(positions: seq<int>, pos: int, dir: int)
  {
    && pos in positions
    && var idx := IndexOf(positions, pos);
       -|positions| <= idx + Turned(|positions|, idx, dir) < |positions|
  }

  /**
   * One update_beams step for one beam: the new (beam_pos, dir).  The
   * beam keeps to its track, and its direction flips exactly when the next
   * index would leave the list.
   */
  function Bounce(positions: seq<int>, pos: int, dir: int): (r: (int, int))
    requires CanAdvance(positions, pos, dir)
    ensures r.0 in positions
    ensures var idx := IndexOf(positions, pos);
            r.1 == (if 0 <= idx + dir < |positions| then dir else -dir)
  {
    var idx := IndexOf(positions, pos);
    var d := Turned(|positions|, idx, dir);
    var nxt := idx + d;
    (if nxt < 0 then positions[|positions| + nxt] else positions[nxt], d)
  }

  /** A sweeping beam can always step, and is still sweeping afterwards. */
  lemma SweepingAdvances(positions: seq<int>, pos: int, dir: int)
    requires Sweeping(positions, pos, dir)
    ensures CanAdvance(positions, pos, dir)
    ensures var r := Bounce(positions, pos, dir); Sweeping(positions, r.0, r.1)
  {
  }

  /**
   * On a track of distinct places, a sweeping beam moves exactly one index
   * along it, in its new direction.
   */
  lemma BounceMovesOneIndex(positions: seq<int>, pos: int, dir: int)
    requires Sweeping(positions, pos, dir) && Distinct(positions)
    ensures CanAdvance(positions, pos, dir)
    ensures var r := Bounce(positions, pos, dir);
            IndexOf(positions, r.0) == IndexOf(positions, pos) + r.1
  {
    var r := Bounce(positions, pos, dir);
    var k := IndexOf(positions, pos) + r.1;
    assert positions[k] == r.0;
    var m := IndexOf(positions, r.0);
    assert positions[m] == r.0;
  }

  /**
   * The sweep can be retraced: stepping back from the new place with the
   * new direction reversed returns to the old place.
   */
  lemma BounceReverses(positions: seq<int>, pos: int, dir: int)
    requires Sweeping(positions, pos, dir) && Distinct(positions)
    ensures CanAdvance(positions, pos, dir)
    ensures var r := Bounce(positions, pos, dir);
            CanAdvance(positions, r.0, -r.1) && Bounce(positions, r.0, -r.1) == (pos, -r.1)
  {
    BounceMovesOneIndex(positions, pos, dir);
  }

  /** A beam dict of the running game: its spec fields and its moving place. */
  class Beam {
    const orient: Orient
    const line: int
    const positions: seq<int>
    var dir: int
    var beamPos: int

    /** `b = spec.copy()` followed by `b['beam_pos'] = b[key][0]`. */
    constructor (spec: BeamSpec)
      requires |spec.positions| > 0
      ensures orient == spec.orient && line == spec.line && positions == spec.positions && dir == spec.dir
      ensures beamPos == spec.positions[0]
    {
      orient := spec.orient;
      line := spec.line;
      positions := spec.positions;
      dir := spec.dir;
      beamPos := spec.positions[0];
    }

    /** The body of update_beams for this beam. */
    method Advance()
      requires CanAdvance(positions, beamPos, dir)
      modifies this
      ensures (beamPos, dir) == Bounce(positions, old(beamPos), old(dir))
    {
      var idx := IndexOf(positions, beamPos);
      var nxt := idx + dir;
      if nxt < 0 || nxt >= |positions| {
        dir := -dir;
        nxt := idx + dir;
      }
      beamPos := if nxt < 0 then positions[|positions| + nxt] else positions[nxt];
    }
  }

  /** No beam object appears twice in the list. */
  predicate Unaliased(beams: seq<Beam>)
  {
    forall i, j :: 0 <= i < j < |beams| ==> beams[i] != beams[j]
  }

  /**
   * The beam initialisation of firewall_breach: one fresh beam per spec,
   * each starting at the first place of its track.
   */
  method InitBeams(specs: seq<BeamSpec>) returns (beams: seq<Beam>)
    requires forall s :: s in specs ==> |s.positions| > 0
    ensures |beams| == |specs| && Unaliased(beams)
    ensures forall i :: 0 <= i < |beams| ==> fresh(beams[i])
    ensures forall i :: 0 <= i < |beams| ==>
              && beams[i].orient == specs[i].orient && beams[i].line == specs[i].line
              && beams[i].positions == specs[i].positions && beams[i].dir == specs[i].dir
              && beams[i].beamPos == specs[i].positions[0]
  {
    beams := [];
    for k := 0 to |specs|
      invariant |beams| == k && Unaliased(beams)
      invariant forall i :: 0 <= i < k ==> fresh(beams[i])
      invariant forall i :: 0 <= i < k ==>
                  && beams[i].orient == specs[i].orient && beams[i].line == specs[i].line
                  && beams[i].positions == specs[i].positions && beams[i].dir == specs[i].dir
                  && beams[i].beamPos == specs[i].positions[0]
    {
      var b := new Beam(specs[k]);
      beams := beams + [b];
    }
  }

  /** update_beams: every beam takes one bounce step. */
  method UpdateBeams(beams: seq<Beam>)
    requires Unaliased(beams)
    requires forall b :: b in beams ==> CanAdvance(b.positions, b.beamPos, b.dir)
    modifies set b | b in beams
    ensures forall b :: b in beams ==> (b.beamPos, b.dir) == Bounce(b.positions, old(b.beamPos), old(b.dir))
  {
    for k := 0 to |beams|
      invariant forall i :: 0 <= i < k ==>
                  (beams[i].beamPos, beams[i].dir) == Bounce(beams[i].positions, old(beams[i].beamPos), old(beams[i].dir))
      invariant forall i :: k <= i < |beams| ==>
                  beams[i].beamPos == old(beams[i].beamPos) && beams[i].dir == old(beams[i].dir)
    {
      beams[k].Advance();
    }
  }

  /**
   * update_beams on beams that sweep their tracks: every beam takes its
   * bounce step and still sweeps its track afterwards.
   */
  method AdvanceAll(beams: seq<Beam>)
    requires Unaliased(beams)
    requires forall b :: b in beams ==> Sweeping(b.positions, b.beamPos, b.dir)
    modifies set b | b in beams
    ensures forall b :: b in beams ==> CanAdvance(b.positions, old(b.beamPos), old(b.dir))
    ensures forall b :: b in beams ==> (b.beamPos, b.dir) == Bounce(b.positions, old(b.beamPos), old(b.dir))
    ensures forall b :: b in beams ==> Sweeping(b.positions, b.beamPos, b.dir)
  {
    forall b | b in beams
      ensures CanAdvance(b.positions, b.beamPos, b.dir)
    {
      SweepingAdvances(b.positions, b.beamPos, b.dir);
    }
    UpdateBeams(beams);
    forall b | b in beams
      ensures Sweeping(b.positions, b.beamPos, b.dir)
    {
      SweepingAdvances(b.positions, old(b.beamPos), old(b.dir));
    }
  }

  /** The player stands in the beam: on its row at its column, or on its column at its row. */
  predicate Hit(orient: Orient, line: int, beamPos: int, player: Pos)
  {
    || (orient == Horizontal && line == player.0 && beamPos == player.1)
    || (orient == Vertical && line == player.1 && beamPos == player.0)
  }

  /** How many beams the player stands in. */
  function HitCount(beams: seq<Beam>, player: Pos): (n: nat)
    reads set b | b in beams
    ensures n <= |beams|
    ensures n == 0 <==> forall i :: 0 <= i < |beams| ==> !Hit(beams[i].orient, beams[i].line, beams[i].beamPos, player)
  {
    if beams == [] then 0
    else
      var last := beams[|beams| - 1];
      HitCount(beams[..|beams| - 1], player) + if Hit(last.orient, last.line, last.beamPos, player) then 1 else 0
  }

  /** The collision check of firewall_breach: the alert rises by one per beam the player stands in. */
  method CheckCollisions(beams: seq<Beam>, player: Pos, alert: nat) returns (alert': nat)
    ensures alert' == alert + HitCount(beams, player)
  {
    alert' := alert;
    for k := 0 to |beams|
      invariant alert' == alert + HitCount(beams[..k], player)
    {
      var b := beams[k];
      if b.orient == Horizontal && b.line == player.0 && b.beamPos == player.1 {
        alert' := alert' + 1;
      }
      if b.orient == Vertical && b.line == player.1 && b.beamPos == player.0 {
        alert' := alert' + 1;
      }
      assert beams[..k + 1][..k] == beams[..k];
    }
    assert beams[..|beams|] == beams;
  }

  /** The keys the game reacts to; any other key moves nothing. */
  datatype Key = KeyLeft | KeyRight | KeyUp | KeyDown | KeyEscape | KeyOther

  /** The `moves` table, with (0, 0) for a key it does not list. */
  function KeyDelta(key: Key): Pos
  {
    match key
    case KeyLeft => (0, -1)
    case KeyRight => (0, 1)
    case KeyUp => (-1, 0)
    case KeyDown => (1, 0)
    case _ => (0, 0)
  }

  /** The move step: the player enters the target cell unless it is a wall. */
  function MovePlayer(maze: Maze, player: Pos, key: Key): (p: Pos)
    requires WellFormed(maze) && InMaze(maze, Plus(player, KeyDelta(key)))
    ensures p == player || p == Plus(player, KeyDelta(key))
    ensures Open(maze, Plus(player, KeyDelta(key))) ==> p == Plus(player, KeyDelta(key))
    ensures !Open(maze, Plus(player, KeyDelta(key))) ==> p == player
  {
    var target := Plus(player, KeyDelta(key));
    if maze[target.0][target.1] != WallIcon then target else player
  }

  /**
   * Moving never leaves the set of cells reachable from the start: the
   * player only ever stands where find_route's search could go.
   */
  lemma MoveKeepsReachable(maze: Maze, player: Pos, key: Key)
    requires WellFormed(maze) && InMaze(maze, Plus(player, KeyDelta(key)))
    requires Reachable(maze, player)
    ensures Reachable(maze, MovePlayer(maze, player, key))
  {
    var p := MovePlayer(maze, player, key);
    if p != player {
      var w :| IsRoute(maze, w) && w[|w| - 1] == player;
      var w' := w + [p];
      assert Adjacent(player, p) by {
        match key
        case KeyLeft =>
        case KeyRight =>
        case KeyUp =>
        case KeyDown =>
        case _ =>
      }
      assert IsRoute(maze, w') && w'[|w'| - 1] == p;
    }
  }

  /** Every cell on the border of the map is a wall. */
  predicate Walled(maze: Maze)
    requires WellFormed(maze)
  {
    forall r, c :: 0 <= r < |maze| && 0 <= c < |maze[r]| && (r == 0 || r == |maze| - 1 || c == 0 || c == |maze[r]| - 1)
      ==> maze[r][c] == WallIcon
  }

  /** Strictly inside the border. */
  predicate Interior(maze: Maze, p: Pos)
    requires WellFormed(maze)
  {
    0 < p.0 < |maze| - 1 && 0 < p.1 < |maze[0]| - 1
  }

  /** In a walled map a move from an interior cell stays in the map, and stays interior. */
  lemma MoveStaysInside(maze: Maze, player: Pos, key: Key)
    requires WellFormed(maze) && Walled(maze) && Interior(maze, player)
    ensures InMaze(maze, Plus(player, KeyDelta(key)))
    ensures Interior(maze, MovePlayer(maze, player, key))
  {
    var t := Plus(player, KeyDelta(key));
    if t.0 == 0 || t.0 == |maze| - 1 {
      assert maze[t.0][t.1] == WallIcon;
    } else if t.1 == 0 || t.1 == |maze[0]| - 1 {
      assert maze[t.0][t.1] == WallIcon;
    }
  }

  /** MAZE_MAP is a rectangle walled on every side, with the start inside. */
  lemma MazeMapWalled()
    ensures WellFormed(MazeMap) && Walled(MazeMap) && Interior(MazeMap, Start)
  {
  }

  /**
   * The game loop of firewall_breach, driven by a list of keystrokes in
   * place of the clock and the keyboard.  Each pass: give up once the alert
   * reaches the threshold; stop on Escape; move; count collisions; win on
   * the exit icon; advance the beams.  With no keystroke left the outcome
   * is undecided (the clock would end it).
   */
  method Breach(maze: Maze, specs: seq<BeamSpec>, keys: seq<Key>) returns (result: Option<bool>, player: Pos, alert: nat)
    requires WellFormed(maze) && Walled(maze) && Interior(maze, Start)
    requires forall s :: s in specs ==> |s.positions| > 0 && Sweeping(s.positions, s.positions[0], s.dir)
    ensures Interior(maze, player)
    ensures result == Some(true) ==> maze[player.0][player.1] == ExitIcon && Reachable(maze, player)
    ensures result == Some(false) ==> alert >= AlertThreshold || KeyEscape in keys
    ensures result == None ==> alert < AlertThreshold && KeyEscape !in keys
  {
    player := Start;
    alert := 0;
    var beams := InitBeams(specs);
    var i := 0;
    assert IsRoute(maze, [Start]);
    while true
      invariant 0 <= i <= |keys| && KeyEscape !in keys[..i]
      invariant Interior(maze, player) && Reachable(maze, player)
      invariant Unaliased(beams) && forall b :: b in beams ==> fresh(b)
      invariant forall b :: b in beams ==> Sweeping(b.positions, b.beamPos, b.dir)
      decreases |keys| - i
    {
      if alert >= AlertThreshold {
        return Some(false), player, alert;
      }
      if i == |keys| {
        assert keys[..i] == keys;
        return None, player, alert;
      }
      var key := keys[i];
      if key == KeyEscape {
        return Some(false), player, alert;
      }
      assert keys[..i + 1] == keys[..i] + [key];
      i := i + 1;
      MoveStaysInside(maze, player, key);
      MoveKeepsReachable(maze, player, key);
      player := MovePlayer(maze, player, key);
      alert := CheckCollisions(beams, player, alert);
      if maze[player.0][player.1] == ExitIcon {
        return Some(true), player, alert;
      }
      AdvanceAll(beams);
    }
  }
}
