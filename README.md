# Skoomtown Archive mini-games, modelled in Dafny

This project models the game logic of three terminal mini-games from the Skoomtown Archive, plus one text utility. It proves properties of each.

- **Circuit Override** (`packages/games/circuit_override.py`). A 5×5 grid of pipe tiles that the player rotates until a connected route leads from the entry corner to the exit corner, avoiding hidden traps. The model covers:
  - the rotation and connection tables;
  - `rotate_tile`;
  - the depth-first `is_solved` search;
  - puzzle generation: the monotone solution path, tile placement, trap sampling, scrambling and the "break if already solved" step.
- **Firewall Matrix Breach** (`packages/games/firewall_matrix_breach.py`). The player walks a maze past laser beams that sweep back and forth. The model covers:
  - `find_route`'s breadth-first search with path reconstruction;
  - the bouncing beams (`update_beams` and their initialisation);
  - the wall-blocked move;
  - the collision count;
  - the game loop.
- **Data Stream Decryption** (`packages/games/data_stream_decrypt.py`). Secret packets are hidden in a scrolling random cascade and must be typed back blind. The model covers:
  - the random streams;
  - the per-stage parameters and decoys;
  - the row choice and splice of `_scroll_stream`;
  - the keystroke matcher and input loop;
  - the stage campaign.
- **Line-ending normalisation** (`packages/utility/open_file.py`). The line `text.replace("\r\n", "\n").replace("\r", "\n")`.

Modules, one per file:

| file | module | contents |
|---|---|---|
| `wrappers.dfy` | `Wrappers` | `Option`, `Distinct` |
| `tiles.dfy` | `Tiles` | directions, the 11 tiles, `ROTATION_MAP`, `CONNECTIONS`, glyphs |
| `circuit_grid.dfy` | `CircuitGrid` | the grid as an `array2<Tile>`, `rotate_tile`, `is_solved` |
| `circuit_generator.dfy` | `CircuitGenerator` | the generation steps of `circuit_override` |
| `firewall.dfy` | `FirewallMaze` | `MAZE_MAP` and `find_route` |
| `firewall_breach.dfy` | `FirewallBreach` | the beams as a class, movement, collisions, the game loop |
| `data_stream.dfy` | `DataStream` | everything of the data stream game |
| `open_file.dfy` | `OpenFile` | the newline normalisation |

How the model stands in for what it cannot run:

- **Randomness.** Every draw (`random.choice`, `randrange`, `randint`, `sample`) is a nondeterministic choice (`:|`). A property proved holds for every outcome of the draws.
- **The random initial grid.** In the circuit game it is whatever the grid array held before generation.
- **Keys and clock.** The keyboard is a list of keystrokes. The clock is replaced by running out of keystrokes.
- **Data shapes.**
  - Grids the source mutates in place are `array2`s.
  - Beam dicts that `update_beams` mutates are objects of class `Beam`.
  - Pure computations are functions, specified by reference definitions and lemmas.

## Model

| member | source | states |
|---|---|---|
| Tiles.Opposite | packages/games/circuit_override.py:134 | The opposite of a direction is a different direction. |
| Tiles.OppositeInvolutive | packages/games/circuit_override.py:134 | The `opposite` table is an involution: the opposite of the opposite is the direction itself, and only one direction has a given opposite. |
| Tiles.Clockwise | packages/games/circuit_override.py:31-39 | A quarter turn clockwise moves a direction to one that is neither it nor its opposite. |
| Tiles.Connections | packages/games/circuit_override.py:42-49 | Every tile has between two and four arms, all among N, E, S, W. |
| Tiles.Rotate | packages/games/circuit_override.py:32-39 | No contract: the ROTATION_MAP table itself, tile by tile. It is specified by Tiles.RotateTurnsConnections, Tiles.RotatePeriodFour and Tiles.RotateKeepsArmCount. |
| Tiles.RotateTurnsConnections | packages/games/circuit_override.py:31-49 | ROTATION_MAP turns each tile 90° clockwise. The rotated tile has an arm toward Clockwise(d) iff the tile had one toward d. |
| Tiles.RotatePeriodFour | packages/games/circuit_override.py:32-39 | Four rotations give back the original tile. |
| Tiles.RotateKeepsArmCount | packages/games/circuit_override.py:32-49 | Rotation keeps the number of arms. |
| Tiles.RotateTimesInOrbit | packages/games/circuit_override.py:252-257 | Any number of rotations stays in the tile's rotation orbit. |
| Tiles.OrbitClosed | packages/games/circuit_override.py:32-39 | Rotating a member of an orbit stays in it. Each member generates the same orbit. |
| Tiles.OrbitSymmetric | packages/games/circuit_override.py:32-39 | If a is in t's orbit, then t is in a's. |
| Tiles.Glyph | packages/games/circuit_override.py:32-39 | No contract: the box-drawing character of each tile, the keys of ROTATION_MAP. Tiles.FromGlyph and Tiles.GlyphRoundTrip show it is one-to-one and inverted by decoding. |
| Tiles.FromGlyph | packages/games/circuit_override.py:42-49 | A glyph that decodes to a tile is that tile's glyph. |
| Tiles.GlyphRoundTrip | packages/games/circuit_override.py:32-49 | Decoding a tile's glyph gives the tile back. Rotating the glyph through the table agrees with rotating the tile. |
| Tiles.RotateGlyph | packages/games/circuit_override.py:117 | No contract: `ROTATION_MAP.get(g, g)` on a glyph. It is specified by Tiles.GlyphRoundTrip (a table glyph rotates as its tile) and Tiles.RotateGlyphUnknown (any other glyph is kept). |
| Tiles.RotateGlyphUnknown | packages/games/circuit_override.py:117 | `ROTATION_MAP.get(g, g)` leaves a glyph outside the table unchanged. |
| Tiles.TableOrderIsAlphabet | packages/games/circuit_override.py:52 | TILES lists each of the 11 tiles exactly once. |
| CircuitGrid.Toward | packages/games/circuit_override.py:151-153 | The direction found from p to q steps from p onto q, and it is the only one that does. |
| CircuitGrid.RotateTile | packages/games/circuit_override.py:109-117 | The chosen cell is rotated once. Every other cell is unchanged. |
| CircuitGrid.ClosedSetBlocksExit | packages/games/circuit_override.py:137-166 | Suppose a set of cells holds the entry (or the entry is a trap), every link out of it stays inside or hits a trap, and the exit is not in it. Then no trap-free walk joins entry and exit. This is why `False` is sound. |
| CircuitGrid.WalkSolves | packages/games/circuit_override.py:120-131 | A linked, trap-free walk from the entry to the exit makes the grid solved. |
| CircuitGrid.PushOpenNeighbours | packages/games/circuit_override.py:151-164 | After the inner loop, the stack keeps all old entries and holds every linked in-grid neighbour. Each entry still carries a walk from the entry. |
| CircuitGrid.SearchStep | packages/games/circuit_override.py:137-164 | One pop of the DFS either finds the exit, which proves the grid solved, or keeps the search invariant while the measure decreases. |
| CircuitGrid.IsSolved | packages/games/circuit_override.py:120-166 | is_solved returns true iff a trap-free linked walk joins entry and exit. The entry and exit count as wildcards. |
| CircuitGenerator.MonotoneDiagonal | packages/games/circuit_override.py:171-187 | The i-th cell of a right/down path lies on anti-diagonal i. |
| CircuitGenerator.MonotonePathShape | packages/games/circuit_override.py:171-187 | A right/down path from entry to exit has 2·(GRID_SIZE−1)+1 cells, all distinct. |
| CircuitGenerator.BuildSolutionPath | packages/games/circuit_override.py:171-187 | _build_solution_path, for every coin toss, returns a monotone path from ENTRY to EXIT of length 9. |
| CircuitGenerator.NeedAmong | packages/games/circuit_override.py:201-208 | The collected directions are exactly those among the listed ones whose neighbour lies on the path. |
| CircuitGenerator.Need | packages/games/circuit_override.py:201-208 | No contract: the set of directions whose neighbour is on the path, as the `neighbours` loop builds it. It is specified by CircuitGenerator.NeedAmong and CircuitGenerator.NeighboursOnPath. |
| CircuitGenerator.NeighboursOnPath | packages/games/circuit_override.py:201-208 | The `neighbours` loop computes exactly the directions whose neighbour is on the path. |
| CircuitGenerator.FirstFewest | packages/games/circuit_override.py:212-218 | The candidate search finds a tile in the table whose arms include the need. It returns none only when no tile fits. |
| CircuitGenerator.FirstFewestIsFirstOfFewest | packages/games/circuit_override.py:212-218 | The stable sort by arm count followed by `[0]` picks the fewest-armed fitting tile. Among those, it picks the first in table order. |
| CircuitGenerator.ChooseTileIsFirstFewest | packages/games/circuit_override.py:210-218 | The chosen tile fits, has no more arms than any fitting tile, and is the first such tile in TILES order. |
| CircuitGenerator.ChooseTile | packages/games/circuit_override.py:210-218 | No contract: `candidates[0][0] if candidates else '┼'` over the stably sorted candidates. It is specified by CircuitGenerator.ChooseTileIsFirstFewest and CircuitGenerator.ChooseTileFits. |
| CircuitGenerator.ChooseTileFits | packages/games/circuit_override.py:210-218 | The chosen tile's arms include every needed direction. |
| CircuitGenerator.PlaceSolutionTiles | packages/games/circuit_override.py:190-219 | Every path cell gets the tile chosen for its path neighbours. Every other cell keeps its tile. |
| CircuitGenerator.PlacedPathIsWalk | packages/games/circuit_override.py:190-250 | With placed tiles and no trap on the path, the path is a linked walk, so the grid is solved. This is the `assert is_solved` of line 250. |
| CircuitGenerator.OffPathCells | packages/games/circuit_override.py:240-241 | off_path holds exactly the grid cells not on the path, without repeats. |
| CircuitGenerator.OffPathRoom | packages/games/circuit_override.py:241-242 | A monotone path leaves at least TRAP_COUNT cells off the path. |
| CircuitGenerator.SampleTraps | packages/games/circuit_override.py:242 | Traps come from off_path. On a repeat-free population there are min(TRAP_COUNT, len) of them. |
| CircuitGenerator.ScrambleCell | packages/games/circuit_override.py:255-257 | One cell is rotated 0 to 3 times. Nothing else changes. |
| CircuitGenerator.Scramble | packages/games/circuit_override.py:252-257 | Every cell is rotated between 0 and 3 times and stays in its rotation orbit. |
| CircuitGenerator.Breakable | packages/games/circuit_override.py:262 | breakable is exactly the path cells other than ENTRY and EXIT. |
| CircuitGenerator.BreakIfSolved | packages/games/circuit_override.py:259-265 | A cell is turned iff the scrambled grid was solved and breakable is non-empty. That cell is an inner path cell, rotated once. Every other cell is unchanged. |
| CircuitGenerator.LaySolvableGrid | packages/games/circuit_override.py:236-250 | Steps 1 to 4 yield a monotone path, exactly TRAP_COUNT traps off the path, and a grid that is solved. |
| CircuitGenerator.Generate | packages/games/circuit_override.py:236-265 | After scrambling and the break step, every cell lies in the rotation orbit of a solved placement. The puzzle is therefore solvable by rotations. |
| CircuitGenerator.DownThenAcrossIsPath | packages/games/circuit_override.py:171-187 | The down-then-across route is a valid solution path, and three inner traps lie off it. |
| CircuitGenerator.BreakCanLeaveSolved | packages/games/circuit_override.py:259-265 | Turning a cell on the solution path need not unsolve the grid: with crosses along the top and right edges, any such turn leaves a solved grid. |
| FirewallMaze.FirstIndex | packages/games/firewall_matrix_breach.py:87-90 | Gives the first column holding the character, or the row length when there is none. |
| FirewallMaze.LastExitRow | packages/games/firewall_matrix_breach.py:86-90 | Gives the last row holding an exit icon; no later row holds one. |
| FirewallMaze.ExitCellIsExit | packages/games/firewall_matrix_breach.py:85-90 | The end cell lies in the maze. It is the first exit of the last row that has one, or (0, 0) when there is no exit. |
| FirewallMaze.FindExit | packages/games/firewall_matrix_breach.py:85-90 | The nested loop, whose `break` leaves only the column loop, computes that cell. |
| FirewallMaze.Mark | packages/games/firewall_matrix_breach.py:104 | Setting `visited[nr][nc]` keeps the visited array equal to the set of discovered cells. |
| FirewallMaze.Visit | packages/games/firewall_matrix_breach.py:103-106 | Discovering a neighbour records its predecessor and enqueues it at depth one more. The search tree stays consistent. |
| FirewallMaze.TryNeighbour | packages/games/firewall_matrix_breach.py:101-106 | An in-bounds, unvisited, non-wall neighbour is discovered. Anything else changes nothing. |
| FirewallMaze.Expand | packages/games/firewall_matrix_breach.py:100-106 | After the four-direction loop, every open neighbour of the popped cell is discovered. Old cells keep their depth, and the queue only grows at the back. |
| FirewallMaze.ExpandStep | packages/games/firewall_matrix_breach.py:96-106 | Expanding the queue head keeps the BFS frontier invariant: the queue is sorted by depth within one level, and done cells are closed. |
| FirewallMaze.Progress | packages/games/firewall_matrix_breach.py:96-106 | Each expansion either discovers a new cell, so fewer cells stay undiscovered, or discovers none and only removes the popped cell from the queue. |
| FirewallMaze.ClosedHoldsRoutes | packages/games/firewall_matrix_breach.py:96-108 | Every cell reachable from the start lies in a set that contains the start and is closed under open neighbours. |
| FirewallMaze.Reverse | packages/games/firewall_matrix_breach.py:117 | `path.reverse()`: the result has the same length, and its i-th element is the (n−1−i)-th of the input. |
| FirewallMaze.Reconstruct | packages/games/firewall_matrix_breach.py:110-118 | Following `prev` back from the end and reversing gives a route from the start to the end of depth + 1 cells. |
| FirewallMaze.SearchStep | packages/games/firewall_matrix_breach.py:96-106 | One loop pass either stops at the end, with its depth the shortest distance, or keeps the search invariant with a decreasing measure. |
| FirewallMaze.Exhausted | packages/games/firewall_matrix_breach.py:96-108 | When the queue empties without meeting the end, the end is unreachable. |
| FirewallMaze.NoShorterRoute | packages/games/firewall_matrix_breach.py:96-118 | No route to a discovered cell is shorter than its BFS depth + 1. |
| FirewallMaze.Search | packages/games/firewall_matrix_breach.py:91-106 | The BFS loop ends with the end discovered at its shortest distance, or with the end unreachable. |
| FirewallMaze.FindRoute | packages/games/firewall_matrix_breach.py:77-118 | Returns None iff the exit cell is unreachable. Otherwise it returns a route from (1, 1) through open cells to the exit that is no longer than any other route. |
| FirewallBreach.Range | packages/games/firewall_matrix_breach.py:35-38 | `list(range(lo, hi))` has hi − lo elements, the i-th being lo + i. |
| FirewallBreach.LaserBeamsSweep | packages/games/firewall_matrix_breach.py:34-39 | Every configured beam has a repeat-free track of at least two places, starts on it, and has a unit direction. |
| FirewallBreach.IndexOf | packages/games/firewall_matrix_breach.py:190 | `positions.index` gives the first index holding the place. |
| FirewallBreach.Bounce | packages/games/firewall_matrix_breach.py:187-195 | A beam step stays on the track. The direction flips exactly when the next index would leave the list. |
| FirewallBreach.SweepingAdvances | packages/games/firewall_matrix_breach.py:187-195 | A sweeping beam can always take its step without an index error, and is still sweeping after it. |
| FirewallBreach.BounceMovesOneIndex | packages/games/firewall_matrix_breach.py:190-195 | On a repeat-free track, the beam moves exactly one index in its new direction. |
| FirewallBreach.BounceReverses | packages/games/firewall_matrix_breach.py:187-195 | A step can be retraced: stepping back with the direction reversed returns to the previous place. |
| FirewallBreach.Beam.constructor | packages/games/firewall_matrix_breach.py:215-217 | The beam copies its spec, and its position starts at the first place on the track. |
| FirewallBreach.Beam.Advance | packages/games/firewall_matrix_breach.py:188-195 | One beam's new place and direction are its Bounce. |
| FirewallBreach.InitBeams | packages/games/firewall_matrix_breach.py:213-218 | One fresh, distinct beam per spec, each with the spec's fields and starting at the first place. |
| FirewallBreach.UpdateBeams | packages/games/firewall_matrix_breach.py:183-195 | Every beam in the list takes its Bounce step. |
| FirewallBreach.AdvanceAll | packages/games/firewall_matrix_breach.py:259 | Beams that sweep all step without error and all still sweep afterwards. |
| FirewallBreach.Hit | packages/games/firewall_matrix_breach.py:249-253 | No contract: the two collision tests, a horizontal beam on the player's row at the player's column or a vertical beam on the player's column at the player's row. FirewallBreach.HitCount and FirewallBreach.CheckCollisions are stated through it. |
| FirewallBreach.HitCount | packages/games/firewall_matrix_breach.py:249-253 | The number of beams the player stands in is at most the number of beams, and is zero iff no beam hits. |
| FirewallBreach.CheckCollisions | packages/games/firewall_matrix_breach.py:248-253 | The alert rises by exactly the number of beams the player stands in. |
| FirewallBreach.KeyDelta | packages/games/firewall_matrix_breach.py:238-242 | No contract: the `moves` table with `.get(key.name, (0, 0))`. FirewallBreach.MovePlayer and FirewallBreach.MoveStaysInside are stated through it. |
| FirewallBreach.MovePlayer | packages/games/firewall_matrix_breach.py:238-246 | The player enters the target cell iff it is not a wall; otherwise they stay. |
| FirewallBreach.MoveKeepsReachable | packages/games/firewall_matrix_breach.py:244-246 | A move never leaves the cells reachable from the start. |
| FirewallBreach.MoveStaysInside | packages/games/firewall_matrix_breach.py:244-246 | In a walled map, the target is always inside the map, and the player stays off the border. |
| FirewallBreach.MazeMapWalled | packages/games/firewall_matrix_breach.py:15-33 | MAZE_MAP is rectangular and walled on all sides, with (1, 1) inside. |
| FirewallBreach.Breach | packages/games/firewall_matrix_breach.py:210-259 | A win means the player stands on the exit icon at a reachable cell. A loss means the alert reached 3 or Escape was pressed. An undecided end means neither happened. |
| DataStream.Upper | packages/games/data_stream_decrypt.py:186 | No contract: `key.upper()` on one character, for the ASCII letters. It is specified by DataStream.AlphabetIsUpper. |
| DataStream.AlphabetIsUpper | packages/games/data_stream_decrypt.py:34 | The alphabet holds 36 capitals and digits, all fixed by `upper()`. Lower-case letters map to capitals. |
| DataStream.GenerateRandomStream | packages/games/data_stream_decrypt.py:27-35 | Returns exactly `length` characters (none for a negative length), all from the alphabet. |
| DataStream.Width | packages/games/data_stream_decrypt.py:129 | No contract: the stage width `base_width + (stage - 1) * 5`. It is specified by DataStream.StagesGrow and DataStream.DefaultsFit. |
| DataStream.Rows | packages/games/data_stream_decrypt.py:130 | No contract: the stage height `base_rows + (stage - 1) * 3`. It is specified by DataStream.StagesGrow and DataStream.DefaultsFit. |
| DataStream.CodeLen | packages/games/data_stream_decrypt.py:133 | No contract: the packet length `4 + (stage - 1)`. It is specified by DataStream.StagesGrow, which gives s + 3 at stage s. |
| DataStream.DecoyCount | packages/games/data_stream_decrypt.py:136-141 | At most 3 decoys, and there are some iff the stage is 4 or later. |
| DataStream.StagesGrow | packages/games/data_stream_decrypt.py:129-141 | Width and rows grow strictly with the stage. The code length is stage + 3. Decoys never decrease. |
| DataStream.DefaultsFit | packages/games/data_stream_decrypt.py:106-141 | With the default settings, every stage's row range, sample and splice position are non-empty. |
| DataStream.Candidates | packages/games/data_stream_decrypt.py:83 | The comprehension yields exactly the rows in [2, rows−2) other than the secret row: rows − 5 of them, without repeats. |
| DataStream.Sample | packages/games/data_stream_decrypt.py:83-84 | `random.sample` returns k distinct members of the population. |
| DataStream.ChooseRows | packages/games/data_stream_decrypt.py:82-84 | Fails iff rows < 5 or more decoys than rows − 5. Otherwise, the secret and decoy rows lie in [2, rows−2) and are pairwise distinct. |
| DataStream.SliceAssign | packages/games/data_stream_decrypt.py:90 | In range, slice assignment keeps the length, puts the piece at pos, and keeps both sides. |
| DataStream.SpliceHolds | packages/games/data_stream_decrypt.py:87-90 | The spliced line keeps its length and holds the piece at pos. Every other character stays in the alphabet. |
| DataStream.SpliceLine | packages/games/data_stream_decrypt.py:87-90 | A width-long line with the piece at a start in [0, width − len), as `randrange(0, width - len)` draws it, and random alphabet text everywhere else on the line. |
| DataStream.IndexOf | packages/games/data_stream_decrypt.py:94 | `decoy_rows.index(row)` gives the first index holding the row. |
| DataStream.ScrollStream | packages/games/data_stream_decrypt.py:81-100 | Fails iff some randrange or sample range is empty. Otherwise, `rows` lines of `width` characters. The secret and each decoy sit on their rows at a start below width − len. Every character outside a packet, on every row, is random alphabet text. |
| DataStream.Press | packages/games/data_stream_decrypt.py:183-195 | A matching key (after `upper`) appends the expected character. A wrong key raises the alert by one. An empty or special key changes nothing. |
| DataStream.PressKeepsPrefix | packages/games/data_stream_decrypt.py:186-190 | The entered text stays a prefix of the secret. Each real key counts once, as progress or as an alert. |
| DataStream.TypingKeepsPrefix | packages/games/data_stream_decrypt.py:162-195 | Across the input loop the entered text stays a prefix of the secret. The alert never decreases and never passes the threshold. |
| DataStream.SuccessIffComplete | packages/games/data_stream_decrypt.py:162-197 | A stage succeeds iff the whole packet was typed while the alert stayed below the threshold. |
| DataStream.TypingSplits | packages/games/data_stream_decrypt.py:162-195 | Typing one batch of keys then another is typing them all at once. |
| DataStream.RealKeys | packages/games/data_stream_decrypt.py:184-185 | Counts the character keystrokes, which are at most all the keystrokes. |
| DataStream.TypingDecides | packages/games/data_stream_decrypt.py:162-166 | After |secret| + threshold real keys the loop has stopped: the packet is complete or the alert is at the threshold. |
| DataStream.TypingSecretWins | packages/games/data_stream_decrypt.py:186-197 | Typing the rest of the packet, in either case, completes it without raising the alert. |
| DataStream.Typing | packages/games/data_stream_decrypt.py:162-195 | No contract: the reference for the input loop, which takes keystrokes while the packet is incomplete and the alert is below the threshold. It is specified by DataStream.TypingKeepsPrefix, DataStream.SuccessIffComplete, DataStream.TypingSplits, DataStream.TypingDecides and DataStream.TypingSecretWins. |
| DataStream.InputPhase | packages/games/data_stream_decrypt.py:160-195 | The input loop's final entered text and alert are those of the Typing reference. |
| DataStream.MakeDecoys | packages/games/data_stream_decrypt.py:136-141 | DecoyCount(stage) decoys, each of code length and from the alphabet. |
| DataStream.PlayStage | packages/games/data_stream_decrypt.py:129-197 | The stage's secret has length CodeLen(stage). The stage fails to draw iff the stream does not fit. Otherwise the outcome is the success test on the typed keys. |
| DataStream.AllClearedEach | packages/games/data_stream_decrypt.py:128-216 | If all recorded stages were cleared, then each one was. |
| DataStream.Campaign | packages/games/data_stream_decrypt.py:122-220 | Every stage before the last played was cleared. Throughput is 1 plus the stages cleared. Detection happens at the first stage not cleared. A full clear plays every stage. With the defaults, no stream error occurs. |
| OpenFile.CountPairs | packages/utility/open_file.py:78 | Counts the non-overlapping "\r\n" pairs, at most half the length; zero iff no pair occurs. |
| OpenFile.ReplacePairs | packages/utility/open_file.py:78 | `replace("\r\n", "\n")` shortens the text by one per pair. |
| OpenFile.ReplaceCR | packages/utility/open_file.py:78 | `replace("\r", "\n")` keeps the length, turns each CR into LF and leaves every other character. |
| OpenFile.Normalize | packages/utility/open_file.py:78 | No contract: `text.replace("\r\n", "\n").replace("\r", "\n")` as ReplaceCR after ReplacePairs. It is specified by OpenFile.NormalizeIsUniversal, OpenFile.NormalizeRemovesCR, OpenFile.NormalizeIdempotent and OpenFile.NormalizeLength. |
| OpenFile.NormalizeIsUniversal | packages/utility/open_file.py:78 | The two chained replaces equal the single-pass reference: each "\r\n", lone "\r" or "\n" becomes one "\n". |
| OpenFile.NormalizeRemovesCR | packages/utility/open_file.py:78 | The normalised text contains no carriage return. |
| OpenFile.NoCRUnchanged | packages/utility/open_file.py:78 | Text without a carriage return is returned unchanged. |
| OpenFile.NormalizeIdempotent | packages/utility/open_file.py:78 | Normalising twice is normalising once. |
| OpenFile.NormalizeLength | packages/utility/open_file.py:78 | The output is the input length minus the number of pairs. It is equally long iff there is no "\r\n" pair. |
| OpenFile.UniversalCountsBreaks | packages/utility/open_file.py:78 | Line feeds in the output = line feeds + carriage returns − pairs of the input. Every line break survives as exactly one "\n". |

## Left out

- Rendering and terminal effects are not modelled. These include `print_grid`, `draw_status`, `glitch_effect`, `render_maze`, `flash_route`, `draw_header`, `show_intro`, `_draw_header`, Rich styling of lines and decoys, and the intro screens. They are output only.
- Clocks, sleeps, beeps and time limits are left out. This covers circuit_override's timer, firewall_breach's `TIME_LIMIT`, and data_stream_decrypt's delay, time limit and adaptive beep. They are floating point over wall-clock time; running out of keystrokes stands in for the time limit.
- Scoring is left out: data_stream_decrypt's `fragments`, `base_pts` and speed bonus. The gain depends on elapsed time as a float.
- Keyboard capture and input buffering are left out. This includes circuit_override's "row,col" input parse and its trap and range checks. Keystrokes arrive as values.
- Randomness is a nondeterministic choice, so no distribution is modelled (uniformity, for instance). Neither is the random filler of characters overwritten by a splice.
- CircuitGenerator.BreakIfSolved: turning one inner path cell does not guarantee an unsolved start. Alternative routes through random tiles may survive; CircuitGenerator.BreakCanLeaveSolved exhibits one. The contract states only what the code does.
- CircuitGenerator.SampleTraps: the trap count is stated only for a repeat-free population, which is the only kind the generator passes.
- FirewallBreach.MovePlayer: requires the target cell to lie inside the map. Python would index row or column −1 from the end. In a walled map that cannot happen (FirewallBreach.MoveStaysInside).
- FirewallBreach.Breach: driven by a finite keystroke list. With keys left over the outcome is undecided (`None`), where the clock would have ended the game.
- FirewallBreach.Breach: the exit check follows the collision check. A winning move can therefore take the alert to 3 and still win; the contract states the outcome as the code computes it.
- FirewallBreach.Beam.constructor: `spec.copy()` is shallow, so beams share their position lists with the specs. The model makes the lists immutable values; nothing mutates them.
- FirewallBreach.Breach: requires beam specs with a track of at least two places and a unit direction. LASER_BEAMS meets this (FirewallBreach.LaserBeamsSweep).
- FirewallMaze.FindRoute: covers the general shortest-route contract. The route through `MAZE_MAP` itself is not computed.
- DataStream.Upper: models `str.upper()` for ASCII letters only. Non-ASCII case mapping, including one character that upper-cases to two, is not modelled.
- DataStream.Campaign: a ValueError from an unfit stage is the `StreamError` outcome, not an exception.
- `load_unlocked_text`'s file lookup and read (`_default_secret_file`, `read_text`) and `show_unlocked_text` are not modelled. They are I/O; only the normalisation on line 78 is.
