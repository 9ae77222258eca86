/**
 * The closed tile alphabet of the circuit puzzle: eleven box-drawing glyphs,
 * the 90-degree clockwise rotation table and the per-tile connection table
 * (packages/games/circuit_override.py, ROTATION_MAP and CONNECTIONS).
 */
module Tiles {
  import opened Wrappers

  /** A compass direction in which a tile can have an open arm. */
  datatype Dir = N | E | S | W

  const AllDirs: set<Dir> := {N, E, S, W}

  /** The direction pointing back: N and S, E and W. */
  function Opposite(d: Dir): (r: Dir)
    ensures r != d
  {
    match d
    case N => S
    case S => N
    case E => W
    case W => E
  }

  /**
   * Taking the opposite twice gives the direction back, so a link from p
   * toward d and the link from its neighbour back toward p name the same pair.
   */
  lemma OppositeInvolutive(d: Dir)
    ensures Opposite(Opposite(d)) == d
    ensures forall e :: Opposite(e) == d ==> e == Opposite(d)
  {
  }

  /** A quarter turn clockwise: N to E, E to S, S to W, W to N. */
  function Clockwise(d: Dir): (r: Dir)
    ensures r != d && Opposite(r) != d
  {
    match d
    case N => E
    case E => S
    case S => W
    case W => N
  }

  /**
   * The eleven tiles, named after the arms they open, in the order of the
   * source's CONNECTIONS table.
   */
  datatype Tile =
    | Horizontal  // '─' W E
    | Vertical    // '│' N S
    | DownRight   // '┌' E S
    | DownLeft    // '┐' W S
    | UpLeft      // '┘' W N
    | UpRight     // '└' E N
    | TeeDown     // '┬' W E S
    | TeeUp       // '┴' W E N
    | TeeRight    // '├' N S E
    | TeeLeft     // '┤' N S W
    | Cross       // '┼' N E S W

  /** TILES, the keys of CONNECTIONS in insertion order. */
  const TableOrder: seq<Tile> :=
    [Horizontal, Vertical, DownRight, DownLeft, UpLeft, UpRight,
     TeeDown, TeeUp, TeeRight, TeeLeft, Cross]

  /** CONNECTIONS: the arms each tile opens; every tile opens two to four. */
  function Connections(t: Tile): (arms: set<Dir>)
    ensures 2 <= |arms| <= 4
    ensures arms <= AllDirs
  {
    match t
    case Horizontal => {W, E}
    case Vertical => {N, S}
    case DownRight => {E, S}
    case DownLeft => {W, S}
    case UpLeft => {W, N}
    case UpRight => {E, N}
    case TeeDown => {W, E, S}
    case TeeUp => {W, E, N}
    case TeeRight => {N, S, E}
    case TeeLeft => {N, S, W}
    case Cross => {N, E, S, W}
  }

  /**
   * ROTATION_MAP: one 90-degree clockwise turn.  It is total on the
   * alphabet and turns the connection set of the tile clockwise.
   */
  function Rotate(t: Tile): Tile
  {
    match t
    case Horizontal => Vertical
    case Vertical => Horizontal
    case DownRight => DownLeft
    case DownLeft => UpLeft
    case UpLeft => UpRight
    case UpRight => DownRight
    case TeeDown => TeeLeft
    case TeeLeft => TeeUp
    case TeeUp => TeeRight
    case TeeRight => TeeDown
    case Cross => Cross
  }

  /**
   * Rotating a tile turns each of its arms a quarter clockwise: the rotated
   * tile opens towards Clockwise(d) exactly when the tile opened towards d.
   */
  lemma RotateTurnsConnections(t: Tile, d: Dir)
    ensures Clockwise(d) in Connections(Rotate(t)) <==> d in Connections(t)
  {
    match t
    case Horizontal =>
    case Vertical =>
    case DownRight =>
    case DownLeft =>
    case UpLeft =>
    case UpRight =>
    case TeeDown =>
    case TeeLeft =>
    case TeeUp =>
    case TeeRight =>
    case Cross =>
  }

  /** `k` successive clockwise turns. */
  function RotateTimes(t: Tile, k: nat): Tile
  {
    if k == 0 then t else Rotate(RotateTimes(t, k - 1))
  }

  /** Four clockwise turns return every tile to itself. */
  lemma RotatePeriodFour(t: Tile)
    ensures Rotate(Rotate(Rotate(Rotate(t)))) == t
    ensures RotateTimes(t, 4) == t
  {
    match t
    case Horizontal =>
    case Vertical =>
    case DownRight =>
    case DownLeft =>
    case UpLeft =>
    case UpRight =>
    case TeeDown =>
    case TeeLeft =>
    case TeeUp =>
    case TeeRight =>
    case Cross =>
  }

  /** Rotating never changes how many arms a tile has. */
  lemma RotateKeepsArmCount(t: Tile)
    ensures |Connections(Rotate(t))| == |Connections(t)|
  {
    match t
    case Horizontal =>
    case Vertical =>
    case DownRight =>
    case DownLeft =>
    case UpLeft =>
    case UpRight =>
    case TeeDown =>
    case TeeLeft =>
    case TeeUp =>
    case TeeRight =>
    case Cross =>
  }

  /** The tiles reachable from `t` by 0 to 3 clockwise turns. */
  function Orbit(t: Tile): set<Tile>
  {
    {t, Rotate(t), Rotate(Rotate(t)), Rotate(Rotate(Rotate(t)))}
  }

  /** Every number of turns stays in the orbit. */
  lemma {:induction false} RotateTimesInOrbit(t: Tile, k: nat)
    ensures RotateTimes(t, k) in Orbit(t)
  {
    if k > 0 {
      RotateTimesInOrbit(t, k - 1);
      RotatePeriodFour(t);
    }
  }

  /** A further turn stays in the orbit, and the orbit of the turned tile is the same. */
  lemma OrbitClosed(a: Tile, t: Tile)
    requires a in Orbit(t)
    ensures Rotate(a) in Orbit(t)
    ensures Orbit(a) == Orbit(t)
  {
    RotatePeriodFour(t);
  }

  /** Being in the same orbit is symmetric: the scrambled tile can be turned back. */
  lemma OrbitSymmetric(a: Tile, t: Tile)
    requires a in Orbit(t)
    ensures t in Orbit(a)
  {
    OrbitClosed(a, t);
  }

  /** The glyph the source stores in a grid cell. */
  function Glyph(t: Tile): char
  {
    match t
    case Horizontal => '\U{2500}'
    case Vertical => '\U{2502}'
    case DownRight => '\U{250C}'
    case DownLeft => '\U{2510}'
    case UpLeft => '\U{2518}'
    case UpRight => '\U{2514}'
    case TeeDown => '\U{252C}'
    case TeeUp => '\U{2534}'
    case TeeRight => '\U{251C}'
    case TeeLeft => '\U{2524}'
    case Cross => '\U{253C}'
  }

  /** Looks a glyph up among the keys of the tables; None for any other character. */
  function FromGlyph(c: char): (r: Option<Tile>)
    ensures r.Some? ==> Glyph(r.value) == c
  {
    if c == '\U{2500}' then Some(Horizontal)
    else if c == '\U{2502}' then Some(Vertical)
    else if c == '\U{250C}' then Some(DownRight)
    else if c == '\U{2510}' then Some(DownLeft)
    else if c == '\U{2518}' then Some(UpLeft)
    else if c == '\U{2514}' then Some(UpRight)
    else if c == '\U{252C}' then Some(TeeDown)
    else if c == '\U{2534}' then Some(TeeUp)
    else if c == '\U{251C}' then Some(TeeRight)
    else if c == '\U{2524}' then Some(TeeLeft)
    else if c == '\U{253C}' then Some(Cross)
    else None
  }

  /** `ROTATION_MAP.get(c, c)` on a glyph: an unknown glyph is left as it is. */
  function RotateGlyph(c: char): char
  {
    match FromGlyph(c)
    case Some(t) => Glyph(Rotate(t))
    case None => c
  }

  /**
   * The glyph table is a faithful encoding of the alphabet: distinct tiles
   * have distinct glyphs, and rotating a glyph is rotating its tile.
   */
  lemma GlyphRoundTrip(t: Tile)
    ensures FromGlyph(Glyph(t)) == Some(t)
    ensures RotateGlyph(Glyph(t)) == Glyph(Rotate(t))
  {
    match t
    case Horizontal =>
    case Vertical =>
    case DownRight =>
    case DownLeft =>
    case UpLeft =>
    case UpRight =>
    case TeeDown =>
    case TeeLeft =>
    case TeeUp =>
    case TeeRight =>
    case Cross =>
  }

  /** A character outside the alphabet is not rotated. */
  lemma RotateGlyphUnknown(c: char)
    requires forall t: Tile :: Glyph(t) != c
    ensures RotateGlyph(c) == c
  {
  }

  /** The table order lists every tile exactly once. */
  lemma TableOrderIsAlphabet(t: Tile)
    ensures t in TableOrder
    ensures |TableOrder| == 11
    ensures forall i, j :: 0 <= i < j < |TableOrder| ==> TableOrder[i] != TableOrder[j]
  {
  }
}
