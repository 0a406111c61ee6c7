# Snake server core in Dafny

This project models the authoritative simulation of a multiplayer snake
server: the game record of `server/game.c` and the client slot table and
message dispatch of `server/main.c`. The game record holds up to 64
players, each with a body buffer of 64 cells, plus up to 64 food cells.
The server ticks that record, lets clients join, resume, steer, pause and
leave, and broadcasts an ASCII snapshot of the board.

The model is in two layers.

- Value layer. Every operation that changes the record is a function on
  `World` values, and the properties the code promises are lemmas about
  those functions. The files are `protocol.dfy` (integer widths,
  message ids, limits), `world.dfy` (records), `rules.dfy` (the pure
  helpers of game.c), `engine.dfy` (the state-changing operations and
  the `WorldOk` invariant they keep) and `render.dfy` (the grid built by
  `game_build_ascii_map`).
- Imperative layer. The code as written: loops over arrays updated in
  place.
  - `game.dfy`: class `GameState`, whose `players` and `food` arrays
    mirror `game_state_t`.
  - `host.dfy`: class `ServerContext`, with the `client_slots` array,
    the running flag and the handlers of main.c.
  - `slots.dfy` and `server.dfy`: the value specifications of those
    handlers.

  Every method is proved to leave its object equal to what the
  matching function computes from the old state
  (`Model() == Engine.Tick(old(Model()), now, rand)`,
  `(Snapshot(), reply) == Dispatch(old(Snapshot()), ...)`). The
  properties proved about the functions therefore hold for the code.

`rand()` is an oracle `rand: nat -> nat`, and the record counts the calls
made so far. Attempt `k` of a search that starts at call `b` draws x from
call `b + 2k` and y from call `b + 2k + 1`. All properties hold for every
oracle. Clock readings are parameters.

Where the code and its accompanying description disagree, the model
follows the code:

- `game_init` and `game_handle_leave` are defined without the world-type
  and time parameters that server/game.h declares for them. The model
  follows the definitions.
- A failed join leaves the slot joined and alive with length 3 and a
  stale body (server/game.c:194-206).
- The spawn search checks only the head cell, not the two cells behind it.
- Movement is sequential: snake `s` sees the bodies that snakes `0..s-1`
  already moved in the same tick.

## Model

| member | source | states |
|---|---|---|
| Protocol.CastU8 | server/game.c:72-75 | the `(uint8_t)` cast keeps a value in 0..255 and agrees with it modulo 256 |
| Protocol.SubU64 | server/game.c:390 | `uint64_t` subtraction: the difference modulo 2^64 |
| Protocol.SubAddRoundTrip | server/game.c:390 | wrapping subtraction and wrapping addition undo each other |
| Protocol.AddU64 | server/main.c:100 | `uint64_t` addition: the sum when it fits, otherwise wrapped by 2^64 |
| Rules.IsOpposite | server/game.c:6-11 | true exactly when both bytes are directions and one is the reverse of the other; a direction is never opposite to itself |
| Rules.NextPosition | server/game.c:13-23 | a valid direction moves the head one cell along one axis, with 8-bit wrap; any other byte leaves it in place |
| Rules.StepThenReverse | server/game.c:6-23 | stepping in a direction and then in its opposite returns to the start cell |
| Rules.IsWall | server/game.c:25-29 | inside the grid, a cell is a wall exactly when it is not interior (x or y is 0 or the last index) |
| Rules.StepFromInterior | server/game.c:13-29 | a step from an interior cell that is not a wall stays interior |
| Rules.StepFromOrigin | server/game.c:13-29 | from the all-zero cell, every direction leads onto a wall |
| Rules.FoodIndex | server/game.c:31-39 | -1 exactly when the cell holds no food; otherwise the lowest index holding it |
| Rules.Occupied | server/game.c:48-60 | true exactly when some joined, live slot has the cell among its first `len` segments, except the mover's last segment when it does not grow |
| Rules.CountAlive | server/game.c:62-69 | the number of joined, live slots; zero exactly when there is none |
| Rules.FindPausedByName | server/game.c:169-177 | corrected lookup: the lowest joined, paused slot whose stored name matches in its first 31 bytes, or -1 exactly when none does |
| Rules.FindPausedAsWritten | server/game.c:169-177 | the same scan with the 32-byte comparison as written |
| Rules.LongNameNeverMatches | server/game.c:172-174 | a name of 32 bytes or more never matches its own stored, truncated copy under the 32-byte comparison |
| Rules.StoredNameMatches | server/game.c:191-192 | a name always matches its stored, truncated copy under the 31-byte comparison |
| Rules.CorrectedFindsPaused | server/game.c:169-177 | the corrected lookup finds a paused player by the name it joined with, whatever its length, at that player's slot or an earlier matching one |
| Rules.GlyphsDistinct | server/game.c:331-343 | slots 0..35 get pairwise distinct head glyphs and pairwise distinct body glyphs, none of them a fallback glyph |
| Rules.GlyphCoincidences | server/game.c:331-343 | head and body glyph coincide exactly for slots 26..35, and the body glyph of slot 23 equals the corpse glyph 'x' |
| Rules.ElapsedMs | server/game.c:388-393 | 0 before the game started; the time since the start when it fits in 32 bits, 2^32-1 when it does not; a clock earlier than the start by at most 2^64-2^32 ms gives 2^32-1, and one earlier by more wraps to the 64-bit difference |
| Rules.RemainingMs | server/game.c:395-402 | nonzero exactly in timed mode with a deadline still ahead; then the time left when it fits in 32 bits, and 2^32-1 when it does not |
| Rules.ElapsedPlusRemaining | server/game.c:388-402 | during a timed game, elapsed plus remaining time equals the game's duration |
| Engine.InitOk | server/game.c:111-141 | the initial record satisfies the invariant and has no live snake |
| Engine.MarkInactiveEffect | server/game.c:148-167 | keeping drops only the active flag; clearing leaves the slot not joined, not alive, scoreless, nameless and of length 0; no other slot and no food changes; the invariant is kept |
| Engine.RemoveFoodEffect | server/game.c:41-46 | an in-range index gets the last food cell and the count drops by one, removing exactly that one cell from the multiset; an out-of-range index changes nothing |
| Engine.RemoveFoodDistinct | server/game.c:41-46 | removal keeps food cells pairwise distinct and the removed cell is gone |
| Engine.CandidateInterior | server/game.c:72-81 | every random candidate lies in the box [3, width-2] x [1, height-2], which is interior |
| Engine.ProbeFrom | server/game.c:79-91 | a cell the attempt loop returns is not blocked |
| Engine.FindFreeAt | server/game.c:71-92 | a cell find_free_cell returns is neither wall, live segment nor food |
| Engine.ProbeFound | server/game.c:79-91 | a success returns the first unblocked candidate, after two rand() calls per attempt up to and including it |
| Engine.ProbeNotFound | server/game.c:79-91 | a failure means all 4000 candidates were blocked, after 8000 rand() calls |
| Engine.FindFreeEffect | server/game.c:71-92 | a found cell is interior, at x >= 3, not occupied and not food; a failure means the box is empty or every candidate was blocked |
| Engine.TopUp | server/game.c:99-103 | the first loop only appends food, never past the target, and changes nothing else |
| Engine.FoodTarget | server/game.c:95-97 | the number of live snakes clamped to 64: at most both, and equal to one of them |
| Engine.TopUpEffect | server/game.c:99-103 | the top-up keeps the invariant, and every added cell is interior, unoccupied and not already food |
| Engine.TopUpShort | server/game.c:99-103 | a top-up that stops short of its target ended on a failed search over the final food, the one that left the rand() counter where it is |
| Engine.EnsureFoodEffect | server/game.c:94-109 | afterwards the food count is at most the clamped live count, and equals it unless the last search over the final food failed; surplus is cut from the end; added cells are free; only food and the rand() counter change |
| Engine.EnsureFood | server/game.c:94-109 | the food pass changes only the food and the rand() counter |
| Engine.AppendFoodOk | server/game.c:100-102 | appending an interior cell that is not yet food keeps the invariant |
| Engine.PlayerSpawnOk | server/game.c:208-210 | a body placed with its head on an interior cell at x >= 3 gives a valid player whose two body cells are interior too |
| Engine.SpawnOk | server/game.c:205-210 | placing the spawned body into the prepared slot keeps the invariant |
| Engine.JoinPreparedOk | server/game.c:188-203 | the pre-search update of the joining slot keeps the invariant |
| Engine.JoinSpawned | server/game.c:179-214 | a successful join returns 0 with a live, unpaused, scoreless, length-3 snake facing right, named by the first 31 bytes, its head on a free interior cell with the two body cells to its left; no other slot changes |
| Engine.JoinSucceeds | server/game.c:179-214 | join returns 0 exactly when the slot is in range, active and the search finds a cell, and -1 otherwise; the invariant is kept either way |
| Engine.JoinFailureSideEffect | server/game.c:194-206 | a join whose search fails returns -1 but leaves the slot live with length 3, its old body and the food unchanged |
| Engine.ResumeKeepsPlayer | server/game.c:216-227 | resuming a joined slot returns 0, unpauses it with a freeze until now+3000 ms, keeps the rest of the slot and every other slot, and keeps the invariant |
| Engine.InputEffect | server/game.c:229-238 | a no-op unless the slot is in range, joined, alive and unpaused and the input is not opposite to the current direction; otherwise only the requested direction becomes the input |
| Engine.LeaveEffect | server/game.c:248-253 | after a leave the slot is cleared and the food never exceeds the live snakes; the invariant is kept |
| Engine.Termination | server/game.c:255-277 | only the flag and the idle timer change, and a raised flag stays raised |
| Engine.TimedTermination | server/game.c:258-263 | in timed mode the flag is raised exactly when a deadline is set and has passed |
| Engine.StandardTermination | server/game.c:265-276 | a live snake resets the idle timer; with none it starts at `now`; the flag is raised once 10000 ms have passed since it started |
| Engine.IdleScenario | server/game.c:265-276 | with no snake from t0 on, the game ends at exactly t0+10000 and not a millisecond before |
| Engine.DeadlineScenario | server/game.c:258-263 | a 60-second timed game ends at exactly start+60000 and not before |
| Engine.MoveOne | server/game.c:293-325 | moving one snake changes only its slot's body, length, score and alive flag, and the food; a snake that may not move this tick changes nothing |
| Engine.Fed | server/game.c:315-319 | eating never shortens the snake |
| Engine.MovePrefix | server/game.c:293-325 | the movement loop changes only players and food |
| Engine.ShiftedEffect | server/game.c:321-324 | the shifted body is the new head, then the first len-1 old cells, then the untouched rest |
| Engine.MoveOneDies | server/game.c:303-313 | a snake whose new head is a wall or an occupied cell dies in place: body, length, score and food unchanged |
| Engine.MoveOneAdvances | server/game.c:299-324 | otherwise the head moves to an interior cell; without food the body shifts with the length and score unchanged; with food the length becomes min(len+1, 64), the score rises by one (mod 2^16) and exactly that food cell is removed |
| Engine.MoveOneOk | server/game.c:293-325 | moving a snake keeps the invariant |
| Engine.AdvanceOk | server/game.c:315-324 | a successful step keeps the invariant |
| Engine.AdvancedPlayerOk | server/game.c:315-324 | a successful step leaves the mover's record valid |
| Engine.MovePrefixEffect | server/game.c:293-325 | after moving snakes 0..k-1 the invariant holds, no control field changed, and snakes that may not move are untouched |
| Engine.MovePrefixOk | server/game.c:293-325 | the movement loop keeps the invariant after any number of iterations |
| Engine.MovePrefixPlayers | server/game.c:293-325 | after moving snakes 0..k-1, no control field changed, and snakes that may not move and slots from k on are untouched |
| Engine.LatchAllOk | server/game.c:280-291 | the latching pass keeps the invariant |
| Engine.TickEffect | server/game.c:279-329 | a tick advances the counter by exactly one (mod 2^32), stamps the start time once, keeps the board, mode and deadline, keeps the invariant, leaves no more food than live snakes, and never lowers the termination flag |
| Engine.TickPlayers | server/game.c:284-325 | after a tick every live unpaused snake's current direction is its requested one, never opposite to its old direction; the controls of every slot are the latched ones; slots that are not live are untouched |
| Render.AtInjective | server/game.c:345-386 | distinct grid cells have distinct buffer indices |
| Render.LastWrite | server/game.c:345-386 | the last store to a cell, or -1 when there is none |
| Render.ApplyLast | server/game.c:345-386 | a grid cell holds the glyph of the last store to it, or its initial glyph |
| Render.Render | server/game.c:345-386 | the rendered buffer always has the full 3200 cells of an 80 x 40 snapshot |
| Render.RowWritesShape | server/game.c:349-352 | the first border loop stores '#' only on border cells, and on every top and bottom cell |
| Render.ColWritesShape | server/game.c:353-356 | the second border loop stores '#' only on border cells, and on every left and right cell |
| Render.BorderWritesShape | server/game.c:348-356 | the border loops store '#' on border cells only, and on every one |
| Render.FoodWritesShape | server/game.c:358-362 | the food loop stores '*' on food cells only, and on every one |
| Render.CellWritesShape | server/game.c:369-384 | a segment loop stores only its glyph, and only on the segments it visits |
| Render.SnakeWritesShape | server/game.c:365-385 | a snake's stores land on its own live segments |
| Render.PlayerWritesShape | server/game.c:365-385 | every snake store lands on a segment of some joined snake |
| Render.BorderCovered | server/game.c:348-356 | every border cell receives a store from the border loops |
| Render.FoodOnGrid | server/game.c:358-362 | under the invariant every food store is on the board, and none is on the border |
| Render.PlayersOnGrid | server/game.c:364-385 | under the invariant every snake store is on the board |
| Render.NoSnakeStore | server/game.c:364-385 | a cell that holds no segment of a joined snake gets no snake store |
| Render.BoardFits | server/game.c:345-386 | a board of at most 80 x 40 cells fits the 3200-character buffer |
| Render.RenderOnGrid | server/game.c:345-386 | under the invariant every store of the rendering is on the board, and the board fits the buffer |
| Render.RenderOffBoard | server/game.c:346 | buffer cells beyond the board stay blank |
| Render.RenderLayers | server/game.c:345-386 | a board cell shows the last snake store to it, else '*' if it is food, else '#' if it is border, else a space |
| Render.RenderBorder | server/game.c:348-356 | under the invariant every border cell shows '#', except that the origin cell shows a snake glyph when a segment of a joined snake lies there |
| Render.RenderFood | server/game.c:358-362 | a food cell without a snake segment shows '*' |
| Render.RenderEmpty | server/game.c:345-386 | an interior cell with neither food nor segment shows a space |
| Game.GameState.constructor | server/game.c:111-141 | game_init yields the initial record, which satisfies the invariant |
| Game.GameState.MarkActive | server/game.c:143-146 | the record becomes Engine.MarkActive of the old one |
| Game.GameState.MarkInactive | server/game.c:148-167 | the record becomes Engine.MarkInactive of the old one |
| Game.GameState.FoodAt | server/game.c:31-39 | the scan returns FoodIndex of the live food prefix |
| Game.GameState.RemoveFoodAt | server/game.c:41-46 | the food becomes RemoveFood of the old food, in place |
| Game.GameState.IsOccupied | server/game.c:48-60 | the nested scan returns Occupied of the player table |
| Game.GameState.CountAliveSnakes | server/game.c:62-69 | the counting loop returns CountAlive of the player table |
| Game.GameState.IsBlocked | server/game.c:84-86 | the three tests of one candidate return Blocked |
| Game.GameState.FindFreeCell | server/game.c:71-92 | the search returns FindFree of the old record and advances only the rand() counter |
| Game.GameState.Search | server/game.c:79-91 | the attempt loop returns ProbeFrom from the current counter |
| Game.GameState.Draw | server/game.c:80-81 | one attempt's two draws give CandidateAt for that attempt |
| Game.GameState.EnsureFoodCount | server/game.c:94-109 | the record becomes EnsureFood of the old one |
| Game.GameState.TopUpFood | server/game.c:99-103 | the first loop yields TopUp of the old record |
| Game.GameState.TopUpStep | server/game.c:100-102 | one pass yields TopUpOnce and reports a failed search |
| Game.GameState.TrimFood | server/game.c:106-108 | the second loop cuts the food to the target |
| Game.GameState.FindPausedPlayerByName | server/game.c:169-177 | the loop with the 32-byte comparison returns FindPausedAsWritten of the player table |
| Game.GameState.JoinNewPlayer | server/game.c:179-214 | the record and result become Engine.Join of the old record |
| Game.GameState.PrepareSlot | server/game.c:191-203 | the slot gets the truncated name and the joined, length-3 state |
| Game.GameState.PlaceBody | server/game.c:208-210 | the body buffer gets the head and the two cells to its left |
| Game.GameState.ResumePlayer | server/game.c:216-227 | the record and result become Engine.Resume of the old record |
| Game.GameState.HandleInput | server/game.c:229-238 | the record becomes Engine.Input of the old one |
| Game.GameState.HandlePause | server/game.c:240-246 | the record becomes Engine.Pause of the old one |
| Game.GameState.HandleLeave | server/game.c:248-253 | the record becomes Engine.Leave of the old one |
| Game.GameState.UpdateTermination | server/game.c:255-277 | the record becomes Engine.Termination of the old one |
| Game.GameState.LatchDirections | server/game.c:286-291 | the latching loop applies Latch to every slot |
| Game.GameState.MoveSnake | server/game.c:294-325 | one iteration of the movement loop yields MoveOne |
| Game.GameState.StepSnake | server/game.c:299-324 | the head, wall, collision and growth steps of a moving snake yield MoveOne |
| Game.GameState.Feed | server/game.c:315-319 | growth, score and food removal yield Fed |
| Game.GameState.ShiftCells | server/game.c:321-324 | the body shift yields Stepped |
| Game.GameState.Tick | server/game.c:279-329 | the record becomes Engine.Tick of the old one |
| Game.GameState.BuildAsciiMap | server/game.c:345-386 | the output buffer equals Render of the record |
| Game.ShiftBody | server/game.c:321-324 | the in-place shift loop yields Shifted of the old buffer |
| Game.DrawBorder | server/game.c:348-356 | the two border loops perform the border stores in order |
| Game.DrawFood | server/game.c:358-362 | the food loop performs the food stores in order |
| Game.DrawSnakes | server/game.c:364-385 | the snake loop performs every slot's stores in order |
| Game.DrawSnake | server/game.c:366-384 | one slot's corpse, head and body stores |
| Game.DrawCells | server/game.c:370-373 | one segment loop's stores |
| Game.Store | server/game.c:350 | one store into the buffer |
| Slots.FirstFree | server/main.c:105-114 | the lowest free entry from i on, or -1 exactly when every entry is taken |
| Slots.FindFrom | server/main.c:141-146 | the lowest entry from i on holding the socket, or -1 exactly when none does |
| Slots.AddedEffect | server/main.c:105-114 | adding fails exactly when all 64 entries are taken, and then changes nothing; otherwise only the lowest free entry is bound |
| Slots.AddThenFind | server/main.c:105-146 | a new socket is found again at the entry it was bound to, and no socket sits in two entries |
| Slots.ClosedEffect | server/main.c:116-122 | closing frees the entry and touches no other; closing an entry just bound restores the table |
| Slots.MigratedEffect | server/main.c:170-175 | migration moves the socket to the target, frees the source, touches no other entry, and the socket is then found at the target |
| Slots.ClosedDistinct | server/main.c:116-146 | closing keeps sockets distinct, and the closed socket is no longer found |
| Server.CName | server/main.c:228-232 | the received name is the bytes before the first NUL, or all of them |
| Server.PlayerListEffect | server/main.c:148-168 | a row is in use exactly when its slot joined, copies the flags and score, and holds at most 31 name bytes, the whole stored name when it fits |
| Server.CNameOfNulFree | server/main.c:161-163 | a stored name is read back whole |
| Server.ServerInitEffect | server/main.c:75-103 | every entry is free, the game is valid and empty, the start time is stamped, and a deadline `now + duration` (wrapping) is set exactly in timed mode |
| Server.AcceptEffect | server/main.c:424-441 | a new connection takes the lowest free slot, which becomes active and is found by its socket; with every slot taken the answer is "server full" and nothing changes |
| Server.BadLengthRejected | server/main.c:222-227 | a JOIN of length 0 or at least 256, and an INPUT of length other than 1, get an error and a shutdown and change nothing |
| Server.JoinResumes | server/main.c:238-252 | when the lookup as written (32-byte comparison) finds another joined, paused slot, the socket moves there; that slot becomes active, unpaused and frozen for 3 s, keeping its body and score; the requesting slot is cleared and freed |
| Server.JoinNew | server/main.c:254-267 | when that lookup finds no other slot, the join runs on the requester's own slot with the table untouched; success gets the welcome text, failure "JOIN failed" and a shutdown |
| Server.FindPausedIgnoresActive | server/game.c:169-177 | the paused-player search, at any comparison width, does not read the active flag, so dropping it on disconnect does not hide a paused player |
| Server.MarkActiveOk | server/game.c:143-146 | marking a slot active keeps the invariant |
| Server.PauseOk | server/game.c:240-246 | pausing keeps the invariant |
| Server.DisconnectEffect | server/main.c:450-458 | the slot is freed; a paused player is kept, with only its active flag dropped, and the lookup by name, as written and corrected, finds the same slot as before; any other player is cleared |
| Server.LongNameJoinsNew | server/main.c:238-267 | under the invariant a JOIN whose name has 32 bytes or more finds no paused player and runs a new join on the requester's slot |
| Server.PauseMessageEffect | server/main.c:200-208 | PAUSE marks a joined player paused and inactive and frees the slot |
| Server.LeaveMessageEffect | server/main.c:210-217 | LEAVE frees the slot and clears the player |
| Server.DispatchOk | server/main.c:177-298 | every message from an open socket keeps the session invariant |
| Server.TickRoundEffect | server/main.c:317-337 | a round keeps the invariant and the slot table, stops the server for good once termination is flagged, and yields the snapshot with the new tick counter, one row per slot and the full grid |
| Host.ServerContext.constructor | server/main.c:75-103 | the context becomes ServerInit, which satisfies the session invariant |
| Host.ServerContext.AddClient | server/main.c:105-114 | the slot loop yields Added of the old table |
| Host.ServerContext.CloseSlotFd | server/main.c:116-122 | the table becomes Closed of the old one |
| Host.ServerContext.FindSlotByFd | server/main.c:141-146 | the loop returns the lowest entry holding the socket, or -1 exactly when none does |
| Host.ServerContext.MigrateClientSlot | server/main.c:170-175 | the table becomes Migrated of the old one |
| Host.ServerContext.AcceptClient | server/main.c:424-441 | the context and answer become Accept of the old context, and the invariant is kept for a new socket |
| Host.ServerContext.HandleClientMessage | server/main.c:177-298 | the context and answer become Dispatch of the old context, and the invariant is kept |
| Host.ServerContext.HandleJoin | server/main.c:219-268 | the context and answer become JoinMessage of the old context |
| Host.ServerContext.ResumeInto | server/main.c:239-245 | the socket migrates and the game record becomes ResumeElsewhere |
| Host.ServerContext.Disconnect | server/main.c:450-458 | the context becomes Server.Disconnect of the old one, and the invariant is kept |
| Host.ServerContext.TickRound | server/main.c:309-337 | the context and STATE message become Server.TickRound of the old context |
| Host.ServerContext.Advance | server/main.c:319-323 | the game ticks and the server stops when termination is flagged |
| Host.ServerContext.BuildState | server/main.c:311-330 | the STATE message is StateOf the current record |
| Host.FreeTable | server/main.c:78-80 | every entry of the new table is -1 |
| Host.FillStatePlayerList | server/main.c:148-168 | the output table equals PlayerList of the player table |

## Left out

- Sockets, `select`, `accept`, `recv`/`send`, `shutdown`, `close` and
  `socket_is_disconnected` are not modelled. A message arrives as its
  header fields plus the payload bytes that can be read. A payload
  shorter than the length field means the read failed, and the connection
  is dropped. The server's answer is a `Reply` value. Draining unread
  payload bytes is not modelled.
- A failed header read is not modelled, and neither is a message from a
  socket with no slot beyond the `Dropped` answer.
- The tick thread, its sleep, and the mutex are not modelled. One tick
  plus one snapshot is a single atomic step (`TickRound`), and the main
  loop's `select` is not modelled.
- The broadcast of the STATE message to every bound socket is I/O and
  is left out. `htons`/`htonl` byte order is left out too: the message
  carries the numbers themselves.
- `monotonic_ms`, `srand` and `rand` are parameters: the clock reading
  `now` and the oracle `rand`.
- `game_load_map_from_file`, `game_respawn_player`, the world type and
  the map-file path are left out. Neither function has a body in the
  source, and the world type is only passed on to them.
- The unused header fields (obstacle map, global pause and freeze,
  alive-time accounting) are left out: no code reads or writes them.
- `STATE_MAP_WIDTH` and `STATE_MAP_HEIGHT` are not part of this model,
  so the board size is a parameter. `GameState.constructor` and
  `ServerContext.constructor` require a board of 2..80 by 2..40 cells,
  which is what the invariant and the 3200-cell snapshot buffer need.
- Host.ServerContext.AcceptClient: keeps the invariant only for a socket
  number not already in the table and not negative, as the operating
  system guarantees for `accept`; the model cannot see that guarantee.
- Host.ServerContext.HandleClientMessage: keeps the invariant only for
  non-negative socket numbers, which is all the main loop passes.
- Game.GameState.ShiftCells: shifts a scratch copy of the body buffer
  in place and stores it back, since a player record is a value here.
- Render.Put: a store whose index falls outside the buffer is dropped,
  where the C code would write out of bounds. `RenderOnGrid` shows that
  under the invariant no store does.
- Grid glyphs are characters rather than bytes.
- Strings sent to clients are their texts; lengths and NUL terminators
  are not modelled.

## Findings

The JOIN dispatch (`Server.JoinMessage`, `GameState.FindPausedPlayerByName`)
follows the code as written. The corrected lookup is defined beside it
with its intended property proved.

| source | as written | input that shows it | evidently intended | confidence | as-written member | corrected member |
|---|---|---|---|---|---|---|
| server/game.c:172-174 | a paused player is looked up with `strncmp(stored, name, 32)`, but a stored name holds at most 31 bytes (server/game.c:191-192) | a player named with 32 or more bytes, e.g. 40 times 'a', pauses and then sends JOIN with the same name: the stored 31-byte copy never equals the first 32 bytes of the request, so the player is never resumed and a new join runs instead | compare the 31 bytes a stored name can hold | not executed | Rules.FindPausedAsWritten, Rules.LongNameNeverMatches, Server.LongNameJoinsNew | Rules.FindPausedByName, Rules.StoredNameMatches, Rules.CorrectedFindsPaused |
